/**
 * The account list of the Android companion app (AccountAdapter.java): editing an entry
 * from its two text fields, saving the list as a JSON array into the app's preferences,
 * and loading it back.
 */
module Accounts {
  import opened Wrappers
  import opened Text

  /** An `Account`: its id and password. A new one has both empty. */
  datatype Account = Account(id: string, password: string)

  predicate Blank(a: Account)
  {
    a.id == "" && a.password == ""
  }

  // ---------------------------------------------------------------------------------
  // Saving

  /** The `toJsonString()` texts of `accounts`, in list order. */
  function JsonTexts(accounts: seq<Account>, toJson: Account -> string): (r: seq<string>)
    ensures |r| == |accounts| && forall i :: 0 <= i < |r| ==> r[i] == toJson(accounts[i])
  {
    if accounts == [] then [] else [toJson(accounts[0])] + JsonTexts(accounts[1..], toJson)
  }

  /** The text `saveAccounts` stores: '[', the accounts' texts separated by ',', ']'. */
  function AccountsJson(accounts: seq<Account>, toJson: Account -> string): string
  {
    "[" + Join(",", JsonTexts(accounts, toJson)) + "]"
  }

  /** Joining one more text adds a separator only after a first one. */
  lemma {:induction false} JoinSnoc(sep: string, xs: seq<string>, x: string)
    ensures Join(sep, xs + [x]) == if xs == [] then x else Join(sep, xs) + sep + x
  {
    if |xs| == 1 {
      assert xs + [x] == [xs[0], x];
    } else if |xs| > 1 {
      assert (xs + [x])[1..] == xs[1..] + [x];
      JoinSnoc(sep, xs[1..], x);
    }
  }

  lemma JsonTextsPrefix(accounts: seq<Account>, toJson: Account -> string, i: int)
    requires 0 <= i < |accounts|
    ensures JsonTexts(accounts[..i + 1], toJson) == JsonTexts(accounts[..i], toJson) + [toJson(accounts[i])]
  {
  }

  /** The empty list is saved as "[]", the text a missing preference reads as. */
  lemma EmptyListText(toJson: Account -> string)
    ensures AccountsJson([], toJson) == "[]"
  {
  }

  /** The `StringBuilder` loop of `saveAccounts`. */
  method BuildAccountsJson(accounts: seq<Account>, toJson: Account -> string) returns (text: string)
    ensures text == AccountsJson(accounts, toJson)
  {
    var sb := "[";
    var comma := false;
    var i := 0;
    while i < |accounts|
      invariant 0 <= i <= |accounts|
      invariant comma <==> i > 0
      invariant sb == "[" + Join(",", JsonTexts(accounts[..i], toJson))
    {
      JsonTextsPrefix(accounts, toJson, i);
      JoinSnoc(",", JsonTexts(accounts[..i], toJson), toJson(accounts[i]));
      if comma {
        sb := sb + ",";
      }
      sb := sb + toJson(accounts[i]);
      comma := true;
      i := i + 1;
    }
    assert accounts[..i] == accounts;
    text := sb + "]";
  }

  // ---------------------------------------------------------------------------------
  // Loading

  /** A JSON value as `JsonReader.nextString` sees it: a string, a number (read as its
      text), or anything else (which it refuses). */
  datatype JsonValue = JString(s: string) | JNumber(text: string) | JOther

  /** One object of the stored array: its members in order. */
  type JsonObject = seq<(string, JsonValue)>

  /** `nextString()`: the text of a string or number; None where it throws. */
  function NextString(v: JsonValue): (r: Option<string>)
    ensures r.Some? <==> !v.JOther?
  {
    match v
    case JString(s) => Some(s)
    case JNumber(t) => Some(t)
    case JOther => None
  }

  /** Reading the rest of an object's members into `acnt`: "id" and "pw" set the fields,
      any other key is skipped. None where a read throws. */
  function ReadMembers(members: JsonObject, acnt: Account): Option<Account>
  {
    if members == [] then Some(acnt)
    else
      var (name, value) := members[0];
      if name == "id" then
        if NextString(value).None? then None else ReadMembers(members[1..], acnt.(id := NextString(value).value))
      else if name == "pw" then
        if NextString(value).None? then None else ReadMembers(members[1..], acnt.(password := NextString(value).value))
      else ReadMembers(members[1..], acnt)
  }

  /** Reading the rest of the array: each object read from a new `Account`, blank ones
      dropped, the others added to `list`. None where a read throws. */
  function ReadObjects(objects: seq<JsonObject>, list: seq<Account>): Option<seq<Account>>
  {
    if objects == [] then Some(list)
    else
      var a := ReadMembers(objects[0], Account("", ""));
      if a.None? then None
      else ReadObjects(objects[1..], if Blank(a.value) then list else list + [a.value])
  }

  /** What `loadAccounts` reads from the stored text, given as the array of objects it parses
      to (None when it is not an array of objects): the non-blank accounts, or None. */
  function Loaded(parsed: Option<seq<JsonObject>>): Option<seq<Account>>
  {
    if parsed.None? then None else ReadObjects(parsed.value, [])
  }

  /** The accounts read back are never blank, and there are no more of them than objects. */
  lemma {:induction false} ReadObjectsKeepsNonBlank(objects: seq<JsonObject>, list: seq<Account>)
    requires forall k :: 0 <= k < |list| ==> !Blank(list[k])
    ensures var r := ReadObjects(objects, list);
      r.Some? ==> |r.value| <= |list| + |objects| && forall k :: 0 <= k < |r.value| ==> !Blank(r.value[k])
  {
    if objects != [] {
      var a := ReadMembers(objects[0], Account("", ""));
      if a.Some? {
        var next := if Blank(a.value) then list else list + [a.value];
        ReadObjectsKeepsNonBlank(objects[1..], next);
      }
    }
  }

  /** Keys other than "id" and "pw" change nothing, whatever their value. */
  lemma {:induction false} UnknownKeysIgnored(members: JsonObject, name: string, value: JsonValue, acnt: Account)
    requires name != "id" && name != "pw"
    ensures ReadMembers(members + [(name, value)], acnt) == ReadMembers(members, acnt)
  {
    if members != [] {
      assert (members + [(name, value)])[1..] == members[1..] + [(name, value)];
      var v := members[0].1;
      if members[0].0 == "id" && NextString(v).Some? {
        UnknownKeysIgnored(members[1..], name, value, acnt.(id := NextString(v).value));
      } else if members[0].0 == "pw" && NextString(v).Some? {
        UnknownKeysIgnored(members[1..], name, value, acnt.(password := NextString(v).value));
      } else if members[0].0 != "id" && members[0].0 != "pw" {
        UnknownKeysIgnored(members[1..], name, value, acnt);
      }
    }
  }

  /** The object an account is saved as, in the form the loader reads: its id under "id"
      and its password under "pw". */
  function ObjectOf(a: Account): JsonObject
  {
    [("id", JString(a.id)), ("pw", JString(a.password))]
  }

  function ObjectsOf(accounts: seq<Account>): (r: seq<JsonObject>)
    ensures |r| == |accounts| && forall i :: 0 <= i < |r| ==> r[i] == ObjectOf(accounts[i])
  {
    if accounts == [] then [] else [ObjectOf(accounts[0])] + ObjectsOf(accounts[1..])
  }

  /** An account's object reads back as the account. */
  lemma ReadObjectOf(a: Account)
    ensures ReadMembers(ObjectOf(a), Account("", "")) == Some(a)
  {
    var o := ObjectOf(a);
    assert o[0] == ("id", JString(a.id)) && o[1..] == [("pw", JString(a.password))];
    assert ReadMembers(o, Account("", "")) == ReadMembers(o[1..], Account(a.id, ""));
    assert o[1..][1..] == [];
    assert ReadMembers(o[1..], Account(a.id, "")) == ReadMembers([], Account(a.id, a.password));
  }

  /** The accounts of `accounts` that are not blank, in order. */
  function NonBlank(accounts: seq<Account>): seq<Account>
  {
    if accounts == [] then []
    else (if Blank(accounts[0]) then [] else [accounts[0]]) + NonBlank(accounts[1..])
  }

  /** Saving and loading again gives back the list without its blank entries (a new entry
      whose fields were never filled in). */
  lemma {:induction false} LoadAfterSave(accounts: seq<Account>, list: seq<Account>)
    ensures ReadObjects(ObjectsOf(accounts), list) == Some(list + NonBlank(accounts))
  {
    if accounts != [] {
      var a := accounts[0];
      ReadObjectOf(a);
      assert ObjectsOf(accounts)[1..] == ObjectsOf(accounts[1..]);
      var next := if Blank(a) then list else list + [a];
      assert ObjectsOf(accounts)[0] == ObjectOf(a);
      assert ReadObjects(ObjectsOf(accounts), list) == ReadObjects(ObjectsOf(accounts[1..]), next);
      LoadAfterSave(accounts[1..], next);
      assert NonBlank(accounts) == (if Blank(a) then [] else [a]) + NonBlank(accounts[1..]);
      assert next + NonBlank(accounts[1..]) == list + NonBlank(accounts);
    } else {
      assert list + NonBlank(accounts) == list;
    }
  }

  /** The reader loop over one object's members, from a new `Account`. */
  method ReadAccount(members: JsonObject) returns (acnt: Account, threw: bool)
    ensures threw <==> ReadMembers(members, Account("", "")).None?
    ensures !threw ==> acnt == ReadMembers(members, Account("", "")).value
  {
    acnt := Account("", "");
    var j := 0;
    while j < |members|
      invariant 0 <= j <= |members|
      invariant ReadMembers(members, Account("", "")) == ReadMembers(members[j..], acnt)
    {
      assert members[j..][1..] == members[j + 1..];
      var (name, value) := members[j];
      if name == "id" {
        if value.JOther? {
          return acnt, true;
        }
        acnt := acnt.(id := NextString(value).value);
      } else if name == "pw" {
        if value.JOther? {
          return acnt, true;
        }
        acnt := acnt.(password := NextString(value).value);
      }
      j := j + 1;
    }
    threw := false;
  }

  /** `AccountAdapter`: the account list shown in the app and the text last saved to its
      preferences under "accounts". */
  class AccountAdapter {
    var accountList: seq<Account>
    var stored: string
    const toJson: Account -> string

    constructor (accountList: seq<Account>, stored: string, toJson: Account -> string)
      ensures this.accountList == accountList && this.stored == stored && this.toJson == toJson
    {
      this.accountList := accountList;
      this.stored := stored;
      this.toJson := toJson;
    }

    /** `saveAccounts`: the preferences hold the list's JSON text. */
    method SaveAccounts()
      modifies this
      ensures stored == AccountsJson(accountList, toJson)
      ensures accountList == old(accountList)
    {
      stored := BuildAccountsJson(accountList, toJson);
    }

    /**
     * `readFromEdits` for the entry at `pos` with the texts of its id and password fields:
     * a position outside the list changes nothing; an id that is empty once trimmed removes
     * the entry and saves; an unchanged entry is not saved; otherwise the entry takes the
     * trimmed id and the password as typed, and the list is saved.
     */
    method ReadFromEdits(pos: int, idText: string, pwText: string)
      modifies this
      ensures var id := JavaTrim(idText);
        && (!(0 <= pos < |old(accountList)|) ==> accountList == old(accountList) && stored == old(stored))
        && (0 <= pos < |old(accountList)| && id == "" ==>
              accountList == old(accountList)[..pos] + old(accountList)[pos + 1..]
              && stored == AccountsJson(accountList, toJson))
        && (0 <= pos < |old(accountList)| && id != "" && old(accountList)[pos] == Account(id, pwText) ==>
              accountList == old(accountList) && stored == old(stored))
        && (0 <= pos < |old(accountList)| && id != "" && old(accountList)[pos] != Account(id, pwText) ==>
              accountList == old(accountList)[pos := Account(id, pwText)]
              && stored == AccountsJson(accountList, toJson))
    {
      if pos >= |accountList| || pos < 0 {
        return;
      }
      var acnt := accountList[pos];
      var id := JavaTrim(idText);
      var pw := pwText;
      if id == "" {
        accountList := accountList[..pos] + accountList[pos + 1..];
        SaveAccounts();
        return;
      }
      if acnt.id == id && acnt.password == pw {
        return;
      }
      accountList := accountList[pos := Account(id, pw)];
      SaveAccounts();
    }

    /**
     * `loadAccounts` with the stored text given as the array of objects it parses to (None
     * when reading it throws): the list is replaced by the non-blank accounts read, and only
     * when there is at least one; a read that throws leaves it as it was.
     */
    method LoadAccounts(parsed: Option<seq<JsonObject>>)
      modifies this
      ensures Loaded(parsed).Some? && Loaded(parsed).value != [] ==> accountList == Loaded(parsed).value
      ensures !(Loaded(parsed).Some? && Loaded(parsed).value != []) ==> accountList == old(accountList)
      ensures stored == old(stored)
    {
      if parsed.None? {
        return;
      }
      var objects := parsed.value;
      var accounts: seq<Account> := [];
      var i := 0;
      while i < |objects|
        invariant 0 <= i <= |objects|
        invariant ReadObjects(objects, []) == ReadObjects(objects[i..], accounts)
        invariant accountList == old(accountList) && stored == old(stored)
      {
        assert objects[i..][0] == objects[i] && objects[i..][1..] == objects[i + 1..];
        var acnt, threw := ReadAccount(objects[i]);
        if threw {
          return;
        }
        i := i + 1;
        if Blank(acnt) {
          continue;
        }
        accounts := accounts + [acnt];
      }
      if accounts != [] {
        accountList := accounts;
      }
    }
  }

  /** Reading back the `{"id", "pw"}` objects the accounts are saved as keeps the non-blank
      entries in order. `Account.toJsonString` is not part of this model; that it writes
      exactly this object is the assumption that ties this to the stored text. */
  lemma SaveThenLoad(accounts: seq<Account>)
    ensures Loaded(Some(ObjectsOf(accounts))) == Some(NonBlank(accounts))
  {
    LoadAfterSave(accounts, []);
    assert [] + NonBlank(accounts) == NonBlank(accounts);
  }
}
