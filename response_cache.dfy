/**
 * The response patch the application injects into the booking site's pages
 * (src/preload_main.js): responses that look like a MySQL error page are replaced by the
 * last good response for the same request, or by an empty page; good text responses are
 * remembered per request key, and a remembered response at most ten seconds old is
 * answered without going to the network.
 */
module ResponseCache {
  import opened Wrappers
  import opened Text

  // ---------------------------------------------------------------------------------
  // Error pages

  /** `ERROR_PATTERNS`. */
  const ErrorPatterns: seq<string> := [
    "mysql", "mysqli", "sqlstate", "pdoexception", "you have an error in your sql syntax", "warning:"]

  /** Whether `t` contains one of `patterns`. */
  predicate ContainsAny(t: string, patterns: seq<string>)
  {
    exists i :: 0 <= i < |patterns| && Contains(t, patterns[i])
  }

  /** `looksLikeMysqlError(t)`: false for the empty text, otherwise whether the text in
      lower case contains one of the error patterns. */
  predicate LooksLikeMysqlError(t: string)
  {
    t != "" && ContainsAny(Lower(t), ErrorPatterns)
  }

  function LowerUpperChar(c: char): (r: char)
    ensures r == LowerChar(c)
  {
    LowerChar(UpperChar(c))
  }

  /** The test ignores case: an ASCII text and its upper- and lower-case forms are judged
      alike. */
  lemma LooksLikeIgnoresCase(t: string)
    requires forall i :: 0 <= i < |t| ==> t[i] < '\U{0080}'
    ensures LooksLikeMysqlError(Upper(t)) == LooksLikeMysqlError(t)
    ensures LooksLikeMysqlError(Lower(t)) == LooksLikeMysqlError(t)
  {
    assert Lower(Upper(t)) == Lower(t) by {
      forall i | 0 <= i < |t| ensures Lower(Upper(t))[i] == Lower(t)[i] {
        assert LowerUpperChar(t[i]) == LowerChar(t[i]);
      }
    }
    assert Lower(Lower(t)) == Lower(t);
  }

  /** "mysqli" adds nothing: every text containing it contains "mysql". */
  lemma MysqliIsCovered(t: string)
    requires Contains(Lower(t), "mysqli")
    ensures Contains(Lower(t), "mysql")
  {
    ContainsPrefix(Lower(t), "mysqli", "mysql");
  }

  /** A PHP warning is an error page; an empty answer never is. */
  lemma ErrorExamples()
    ensures LooksLikeMysqlError("Warning: x")
    ensures !LooksLikeMysqlError("")
  {
    var t := "Warning: x";
    assert Lower(t) == "warning: x";
    assert "warning:" <= Lower(t);
    assert Contains(Lower(t), ErrorPatterns[5]);
  }

  // ---------------------------------------------------------------------------------
  // encodeURIComponent

  /** The characters `encodeURIComponent` leaves as they are. */
  predicate Unreserved(c: char)
  {
    'A' <= c <= 'Z' || 'a' <= c <= 'z' || '0' <= c <= '9'
    || c == '-' || c == '_' || c == '.' || c == '!' || c == '~' || c == '*' || c == '\'' || c == '(' || c == ')'
  }

  /** The UTF-8 bytes of a character. */
  function Utf8(c: char): (bytes: seq<int>)
    ensures 1 <= |bytes| <= 4 && forall i :: 0 <= i < |bytes| ==> 0 <= bytes[i] < 256
  {
    var n := c as int;
    if n < 0x80 then [n]
    else if n < 0x800 then [0xC0 + n / 64, 0x80 + n % 64]
    else if n < 0x10000 then [0xE0 + n / 4096, 0x80 + (n / 64) % 64, 0x80 + n % 64]
    else [0xF0 + (n / 262144) % 8, 0x80 + (n / 4096) % 64, 0x80 + (n / 64) % 64, 0x80 + n % 64]
  }

  const HexDigits: string := "0123456789ABCDEF"

  /** "%XX" for each byte, in upper-case hexadecimal. */
  function PercentBytes(bytes: seq<int>): (r: string)
    requires forall i :: 0 <= i < |bytes| ==> 0 <= bytes[i] < 256
    ensures |r| == 3 * |bytes|
    ensures forall i :: 0 <= i < |r| ==> r[i] == '%' || r[i] in HexDigits
  {
    if bytes == [] then ""
    else ['%', HexDigits[bytes[0] / 16], HexDigits[bytes[0] % 16]] + PercentBytes(bytes[1..])
  }

  /** `encodeURIComponent(s)`. */
  function EncodeUriComponent(s: string): (r: string)
    ensures forall i :: 0 <= i < |r| ==> Unreserved(r[i]) || r[i] == '%'
  {
    if s == [] then ""
    else
      (if Unreserved(s[0]) then [s[0]] else PercentBytes(Utf8(s[0]))) + EncodeUriComponent(s[1..])
  }


  // ---------------------------------------------------------------------------------
  // The order of `sort()`

  /** `a < b` in the order of `Array.prototype.sort`: character by character, a proper
      prefix first. */
  predicate Below(a: string, b: string)
    decreases |a|
  {
    b != [] && (a == [] || a[0] < b[0] || (a[0] == b[0] && Below(a[1..], b[1..])))
  }

  predicate NotAfter(a: string, b: string)
  {
    a == b || Below(a, b)
  }

  lemma {:induction false} BelowTransitive(a: string, b: string, c: string)
    requires Below(a, b) && Below(b, c)
    ensures Below(a, c)
    decreases |a|
  {
    if a != [] && a[0] == b[0] && b[0] == c[0] {
      BelowTransitive(a[1..], b[1..], c[1..]);
    }
  }

  lemma {:induction false} BelowTotal(a: string, b: string)
    ensures a == b || Below(a, b) || Below(b, a)
    decreases |a|
  {
    if a != [] && b != [] && a[0] == b[0] {
      BelowTotal(a[1..], b[1..]);
      if a[1..] == b[1..] {
        assert a == [a[0]] + a[1..] && b == [b[0]] + b[1..];
      }
    }
  }

  lemma {:induction false} BelowAsymmetric(a: string, b: string)
    requires Below(a, b)
    ensures !Below(b, a) && a != b
    decreases |a|
  {
    if a != [] && a[0] == b[0] {
      BelowAsymmetric(a[1..], b[1..]);
    }
  }

  predicate Sorted(s: seq<string>)
  {
    forall i, j :: 0 <= i < j < |s| ==> NotAfter(s[i], s[j])
  }

  /** `x` put in front of the first element it does not come after. */
  function Insert(x: string, s: seq<string>): seq<string>
  {
    if s == [] then [x]
    else if NotAfter(x, s[0]) then [x] + s
    else [s[0]] + Insert(x, s[1..])
  }

  /** `keys.sort()`. */
  function SortStrings(s: seq<string>): seq<string>
  {
    if s == [] then [] else Insert(s[0], SortStrings(s[1..]))
  }

  lemma {:induction false} InsertElements(x: string, s: seq<string>)
    ensures multiset(Insert(x, s)) == multiset(s) + multiset{x}
  {
    if s != [] && !NotAfter(x, s[0]) {
      InsertElements(x, s[1..]);
      assert s == [s[0]] + s[1..];
    }
  }

  lemma {:induction false} InsertSorted(x: string, s: seq<string>)
    requires Sorted(s)
    ensures Sorted(Insert(x, s))
  {
    if s == [] {
    } else if NotAfter(x, s[0]) {
      InsertFront(x, s);
    } else {
      BelowTotal(x, s[0]);
      SortedTail(s);
      InsertSorted(x, s[1..]);
      InsertElements(x, s[1..]);
      InsertBehind(x, s, Insert(x, s[1..]));
    }
  }

  /** `x` in front of a sorted list it does not come after keeps it sorted. */
  lemma InsertFront(x: string, s: seq<string>)
    requires Sorted(s) && s != [] && NotAfter(x, s[0])
    ensures Sorted([x] + s)
  {
    var r := [x] + s;
    forall i, j | 0 <= i < j < |r| ensures NotAfter(r[i], r[j]) {
      if i == 0 && j > 1 && x != s[0] && s[0] != s[j - 1] {
        BelowTransitive(x, s[0], s[j - 1]);
      }
    }
  }

  /** The first element of a sorted list in front of the sorted rest with `x` put in. */
  lemma InsertBehind(x: string, s: seq<string>, t: seq<string>)
    requires Sorted(s) && s != [] && Below(s[0], x)
    requires Sorted(t) && multiset(t) == multiset(s[1..]) + multiset{x}
    ensures Sorted([s[0]] + t)
  {
    var r := [s[0]] + t;
    forall i, j | 0 <= i < j < |r| ensures NotAfter(r[i], r[j]) {
      if i == 0 {
        assert r[j] == t[j - 1];
        assert t[j - 1] in multiset(t);
        if t[j - 1] != x {
          assert t[j - 1] in multiset(s[1..]);
          var k :| 0 <= k < |s[1..]| && s[1..][k] == t[j - 1];
          assert s[k + 1] == t[j - 1];
        }
      } else {
        assert r[i] == t[i - 1] && r[j] == t[j - 1];
      }
    }
  }

  /** Sorting keeps the keys and puts them in order. */
  lemma {:induction false} SortStringsCorrect(s: seq<string>)
    ensures Sorted(SortStrings(s)) && multiset(SortStrings(s)) == multiset(s)
  {
    if s != [] {
      SortStringsCorrect(s[1..]);
      InsertSorted(s[0], SortStrings(s[1..]));
      InsertElements(s[0], SortStrings(s[1..]));
      assert s == [s[0]] + s[1..];
    }
  }

  lemma SortedTail(s: seq<string>)
    requires Sorted(s) && s != []
    ensures Sorted(s[1..])
  {
    forall x, y | 0 <= x < y < |s[1..]| ensures NotAfter(s[1..][x], s[1..][y]) {
      assert s[1..][x] == s[x + 1] && s[1..][y] == s[y + 1];
    }
  }

  /** The first element of a sorted list comes after none of the list's elements. */
  lemma SortedHeadFirst(s: seq<string>, x: string)
    requires Sorted(s) && x in multiset(s)
    ensures NotAfter(s[0], x)
  {
    var j :| 0 <= j < |s| && s[j] == x;
    if j > 0 {
      assert NotAfter(s[0], s[j]);
    }
  }

  /** Two non-empty sorted lists of the same keys start with the same key. */
  lemma SortedHeadsEqual(a: seq<string>, b: seq<string>)
    requires Sorted(a) && Sorted(b) && multiset(a) == multiset(b) && a != [] && b != []
    ensures a[0] == b[0]
  {
    assert a[0] in multiset(a) && b[0] in multiset(b);
    SortedHeadFirst(b, a[0]);
    SortedHeadFirst(a, b[0]);
    if a[0] != b[0] {
      BelowAsymmetric(a[0], b[0]);
    }
  }

  /** Removing the same first key leaves the same keys. */
  lemma TailsSameKeys(a: seq<string>, b: seq<string>)
    requires multiset(a) == multiset(b) && a != [] && b != [] && a[0] == b[0]
    ensures multiset(a[1..]) == multiset(b[1..])
  {
    assert a == [a[0]] + a[1..] && b == [b[0]] + b[1..];
    assert multiset(a[1..]) == multiset(a) - multiset{a[0]};
    assert multiset(b[1..]) == multiset(b) - multiset{b[0]};
  }

  /** Two sorted lists of the same keys are the same list. */
  lemma {:induction false} SortedUnique(a: seq<string>, b: seq<string>)
    requires Sorted(a) && Sorted(b) && multiset(a) == multiset(b)
    ensures a == b
    decreases |a|
  {
    assert |a| == |multiset(a)| == |multiset(b)| == |b|;
    if a != [] {
      SortedHeadsEqual(a, b);
      TailsSameKeys(a, b);
      SortedTail(a);
      SortedTail(b);
      SortedUnique(a[1..], b[1..]);
      assert a == [a[0]] + a[1..] && b == [b[0]] + b[1..];
    }
  }

  // ---------------------------------------------------------------------------------
  // Request bodies and keys

  /**
   * A request body as `serializeBody` tells them apart: a falsy value, a string,
   * `URLSearchParams` (by its own text), `FormData` entries, a `Blob` or `ArrayBuffer`, a
   * plain object (its string fields, and its keys in enumeration order), or any other
   * truthy value (by its text).
   */
  datatype Body =
    | Absent
    | Text(s: string)
    | SearchParams(text: string)
    | Form(entries: seq<(string, string)>)
    | Binary
    | Fields(values: map<string, string>, order: seq<string>)
    | Scalar(text: string)

  /** `String(body[k])`: "undefined" for a missing field. */
  function FieldText(values: map<string, string>, k: string): string
  {
    if k in values then values[k] else "undefined"
  }

  /** The `k=v` pairs of the fields named by `keys`, the key encoded when `encodeKey`. */
  function FieldPairs(values: map<string, string>, keys: seq<string>, encodeKey: bool): (r: seq<string>)
    ensures |r| == |keys|
  {
    if keys == [] then []
    else
      [(if encodeKey then EncodeUriComponent(keys[0]) else keys[0]) + "=" + EncodeUriComponent(FieldText(values, keys[0]))]
        + FieldPairs(values, keys[1..], encodeKey)
  }

  /** The `k=v` pairs of form entries, in entry order. */
  function FormPairs(entries: seq<(string, string)>): (r: seq<string>)
    ensures |r| == |entries|
  {
    if entries == [] then []
    else [entries[0].0 + "=" + EncodeUriComponent(entries[0].1)] + FormPairs(entries[1..])
  }

  /**
   * `serializeBody(body)`: a falsy body and binary data give "", a string itself, form data
   * and a plain object its `k=v` pairs joined by '&'. An object goes through `$.param`
   * (keys in enumeration order, encoded) when the page has jQuery (`hasJQuery`), and
   * otherwise takes its keys in sorted order.
   */
  function SerializeBody(body: Body, hasJQuery: bool): string
  {
    match body
    case Absent => ""
    case Text(s) => s
    case SearchParams(text) => text
    case Form(entries) => Join("&", FormPairs(entries))
    case Binary => ""
    case Fields(values, order) =>
      if hasJQuery then Join("&", FieldPairs(values, order, true))
      else Join("&", FieldPairs(values, SortStrings(order), false))
    case Scalar(text) => text
  }

  /** Without jQuery an object's text does not depend on the order its fields were
      written in. */
  lemma SerializeIgnoresFieldOrder(values: map<string, string>, o1: seq<string>, o2: seq<string>)
    requires multiset(o1) == multiset(o2)
    ensures SerializeBody(Fields(values, o1), false) == SerializeBody(Fields(values, o2), false)
  {
    SortStringsCorrect(o1);
    SortStringsCorrect(o2);
    SortedUnique(SortStrings(o1), SortStrings(o2));
  }

  /** `method` uppercased, or "GET" when it is missing or empty. */
  function MethodName(m: string): string
  {
    Upper(if m == "" then "GET" else m)
  }

  /**
   * `makeKeyFromFetch(url, init)` and `makeKeyFromXHR(m, u, b)`: the method, a space, the
   * URL, " # " and the serialized body. A missing URL is "".
   */
  function RequestKey(verb: string, url: string, body: Body, hasJQuery: bool): string
  {
    MethodName(verb) + " " + url + " # " + SerializeBody(body, hasJQuery)
  }

  /** Uppercasing twice is uppercasing once. */
  lemma UpperIdempotent(s: string)
    ensures Upper(Upper(s)) == Upper(s)
  {
    forall i | 0 <= i < |s| ensures Upper(Upper(s))[i] == Upper(s)[i] {
      assert UpperChar(UpperChar(s[i])) == UpperChar(s[i]);
    }
  }

  /** The options of a `$.ajax` call that make up its key. */
  datatype AjaxOptions = AjaxOptions(url: string, requestType: string, verb: string, data: Body)

  /** The key of `$.ajax(options)`: `type`, else `method`, else "GET", uppercased, and the
      data or ''. The page has jQuery. */
  function AjaxKey(o: AjaxOptions): string
  {
    var m := if o.requestType != "" then o.requestType else if o.verb != "" then o.verb else "GET";
    RequestKey(Upper(m), o.url, if o.data == Absent then Text("") else o.data, true)
  }

  /** A `$.ajax` call and a `fetch` or XHR request for the same method, URL and body have
      the same key, so they share remembered responses. */
  lemma AjaxKeyIsRequestKey(url: string, verb: string, data: Body)
    ensures AjaxKey(AjaxOptions(url, verb, "", data)) == RequestKey(verb, url, data, true)
    ensures AjaxKey(AjaxOptions(url, "", verb, data)) == RequestKey(verb, url, data, true)
  {
    UpperIdempotent(if verb == "" then "GET" else verb);
  }

  /** The key begins with the method; when the method holds no space, it is the key's first
      word, so requests with different methods never share a key. */
  lemma KeyStartsWithMethod(verb: string, url: string, body: Body, hasJQuery: bool)
    requires ' ' !in MethodName(verb)
    ensures Split(RequestKey(verb, url, body, hasJQuery), ' ')[0] == MethodName(verb)
  {
    var rest := url + " # " + SerializeBody(body, hasJQuery);
    assert RequestKey(verb, url, body, hasJQuery) == MethodName(verb) + [' '] + rest;
    SplitHead(MethodName(verb), ' ', rest);
  }

  // ---------------------------------------------------------------------------------
  // Remembered responses

  /** `CACHE_TTL_MS`. */
  const CacheTtlMs: int := 10000

  /** A remembered response: body, status, headers and the time it was stored. */
  datatype Remembered = Remembered(body: string, status: int, headers: map<string, string>, ts: int)

  /** A response made by the patch, or the network's own response passed on unchanged. */
  datatype Reply = Reply(body: string, status: int, headers: map<string, string>) | Passed

  /** What the network did: threw, or answered. */
  datatype NetResult =
    | Failed
    | Answered(ok: bool, status: int, contentType: string, text: string, headers: map<string, string>)

  /** The headers of the empty page. */
  const EmptyPageHeaders: map<string, string> := map["content-type" := "text/html; charset=utf-8"]

  /** `/html|text|json/i.test(contentType)`. */
  predicate IsText(contentType: string)
  {
    var t := Lower(contentType);
    Contains(t, "html") || Contains(t, "text") || Contains(t, "json")
  }

  /** A remembered response for `key` at most ten seconds old at `now`. */
  predicate FreshIn(m: map<string, Remembered>, key: string, now: int)
  {
    key in m && now - m[key].ts <= CacheTtlMs
  }

  /** The ten seconds include their end: a response stored at `t` is answered from memory
      at `t + 10000` and no longer at `t + 10001`. */
  lemma TtlIsInclusive(m: map<string, Remembered>, key: string, r: Remembered)
    ensures FreshIn(m[key := r], key, r.ts + CacheTtlMs)
    ensures !FreshIn(m[key := r], key, r.ts + CacheTtlMs + 1)
  {
  }

  /** The remembered response for `key` with status 200, or an empty page when there is none. */
  function Fallback(m: map<string, Remembered>, key: string): (reply: Reply)
    ensures key in m ==> reply == Reply(m[key].body, 200, m[key].headers)
    ensures key !in m ==> reply == Reply("", 200, EmptyPageHeaders)
  {
    if key in m then Reply(m[key].body, 200, m[key].headers) else Reply("", 200, EmptyPageHeaders)
  }

  /** No remembered body looks like an error page. */
  predicate Clean(m: map<string, Remembered>)
  {
    forall k :: k in m ==> !LooksLikeMysqlError(m[k].body)
  }

  /** From a clean memory, a fallback never shows an error page. */
  lemma FallbackIsClean(m: map<string, Remembered>, key: string)
    requires Clean(m)
    ensures !LooksLikeMysqlError(Fallback(m, key).body)
  {
  }

  /** What `$.ajax`'s success callback receives: text, or data jQuery already parsed. */
  datatype AjaxData = TextData(text: string) | ParsedData

  /** The `lastGood` map shared by the patched `fetch`, `$.ajax` and XHR. */
  class ResponseMemory {
    var lastGood: map<string, Remembered>

    predicate Valid()
      reads this
    {
      Clean(lastGood)
    }

    constructor ()
      ensures Valid() && lastGood == map[]
    {
      lastGood := map[];
    }

    /**
     * The patched `fetch` for a request with key `key` at time `now`: a response at most ten
     * seconds old is answered from memory without the network (`network` false). Otherwise
     * the network's `net`, received at `receivedAt`: a failure or an error page is replaced
     * by the fallback; a response that is not ok or not text is passed on; good text is
     * remembered and answered.
     */
    method Fetch(key: string, now: int, net: NetResult, receivedAt: int) returns (reply: Reply, network: bool)
      requires Valid()
      modifies this
      ensures Valid()
      ensures network <==> !FreshIn(old(lastGood), key, now)
      ensures !network ==> reply == Fallback(old(lastGood), key) && lastGood == old(lastGood)
      ensures network && net.Failed? ==> reply == Fallback(old(lastGood), key) && lastGood == old(lastGood)
      ensures network && net.Answered? && !(net.ok && IsText(net.contentType)) ==>
        reply == Passed && lastGood == old(lastGood)
      ensures network && net.Answered? && net.ok && IsText(net.contentType) && LooksLikeMysqlError(net.text) ==>
        reply == Fallback(old(lastGood), key) && lastGood == old(lastGood)
      ensures network && net.Answered? && net.ok && IsText(net.contentType) && !LooksLikeMysqlError(net.text) ==>
        reply == Reply(net.text, net.status, net.headers)
        && lastGood == old(lastGood)[key := Remembered(net.text, net.status, net.headers, receivedAt)]
      ensures reply.Reply? ==> !LooksLikeMysqlError(reply.body)
    {
      if FreshIn(lastGood, key, now) {
        FallbackIsClean(lastGood, key);
        return Fallback(lastGood, key), false;
      }
      network := true;
      FallbackIsClean(lastGood, key);
      if net.Failed? {
        return Fallback(lastGood, key), network;
      }
      if !net.ok || !IsText(net.contentType) {
        return Passed, network;
      }
      if LooksLikeMysqlError(net.text) {
        return Fallback(lastGood, key), network;
      }
      lastGood := lastGood[key := Remembered(net.text, net.status, net.headers, receivedAt)];
      reply := Reply(net.text, net.status, net.headers);
    }

    /** The patched `$.ajax` before the request: the body remembered at most ten seconds
        ago is handed to `success` without a request; None means the request goes out. */
    method AjaxLookup(key: string, now: int) returns (hit: Option<string>)
      ensures hit.Some? <==> FreshIn(lastGood, key, now)
      ensures hit.Some? ==> hit.value == lastGood[key].body
    {
      if FreshIn(lastGood, key, now) {
        return Some(lastGood[key].body);
      }
      return None;
    }

    /** The wrapped `success` callback: text that does not look like an error page is
        remembered with status 200 and no headers; anything else changes nothing. */
    method AjaxSuccess(key: string, data: AjaxData, now: int)
      requires Valid()
      modifies this
      ensures Valid()
      ensures data.TextData? && !LooksLikeMysqlError(data.text) ==>
        lastGood == old(lastGood)[key := Remembered(data.text, 200, map[], now)]
      ensures !(data.TextData? && !LooksLikeMysqlError(data.text)) ==> lastGood == old(lastGood)
    {
      if data.TextData? && !LooksLikeMysqlError(data.text) {
        lastGood := lastGood[key := Remembered(data.text, 200, map[], now)];
      }
    }

    /**
     * The patched XHR once the request is done: an ok text response that looks like an
     * error page has its text replaced by the remembered body or ""; any other ok text
     * response is remembered. The text the page then reads is returned.
     */
    method XhrDone(key: string, status: int, contentType: string, text: string, now: int) returns (seen: string)
      requires Valid()
      modifies this
      ensures Valid()
      ensures var good := 200 <= status < 300 && IsText(contentType);
        && (good && LooksLikeMysqlError(text) ==>
              seen == (if key in old(lastGood) then old(lastGood)[key].body else "") && lastGood == old(lastGood))
        && (good && !LooksLikeMysqlError(text) ==>
              seen == text && lastGood == old(lastGood)[key := Remembered(text, status, map[], now)])
        && (!good ==> seen == text && lastGood == old(lastGood))
    {
      seen := text;
      if 200 <= status < 300 && IsText(contentType) {
        if LooksLikeMysqlError(text) {
          seen := if key in lastGood then lastGood[key].body else "";
        } else {
          lastGood := lastGood[key := Remembered(text, status, map[], now)];
        }
      }
    }
  }
}
