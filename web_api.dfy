/**
 * One account's automation of the booking site (src/web_api.js): a `WebApi` owns a
 * browser window and a session. It opens the login page on start and, each time a page
 * finishes loading, reacts to the page's URL: the login page gets the login script, the
 * site root is sent on to the course page, the password confirmation page gets the
 * confirmation script. The window is modelled by its current URL and the list of
 * requests made of it.
 */
module WebApi {
  import opened Wrappers
  import opened Domain
  import Scripts

  const BaseUrl: string := "http://www.gimposports.or.kr"
  const RootUrl: string := BaseUrl + "/"
  const LoginUrl: string := BaseUrl + "/bbs/login.php"
  const MainUrl: string := BaseUrl + "/bbs/orderCourse.php"
  const ConfirmUrl: string := BaseUrl + "/bbs/member_confirm.php"

  /** A request made of a window: `loadURL(url)` or `webContents.executeJavaScript(script)`;
      the script is None when the reservation script came back `undefined`. */
  datatype Request = LoadUrl(url: string) | Execute(script: Option<Scripts.Script>)

  /** A browser window: the URL it currently shows and the requests made of it so far. */
  class Window {
    var url: string
    var requests: seq<Request>

    constructor (url: string)
      ensures this.url == url && requests == []
    {
      this.url := url;
      requests := [];
    }
  }

  /** The requests `onLoad` makes for the page at `url`. */
  function OnLoadRequests(url: string, session: Session): (rs: seq<Request>)
    ensures url == LoginUrl ==> rs == [Execute(Some(Scripts.Login(session.userId, session.userPw)))]
    ensures url == RootUrl ==> rs == [LoadUrl(MainUrl)]
    ensures ConfirmUrl <= url ==> rs == [Execute(Some(Scripts.Confirm(session.userPw)))]
    ensures url != LoginUrl && url != RootUrl && !(ConfirmUrl <= url) ==> rs == []
  {
    if url == LoginUrl then [Execute(Some(Scripts.Login(session.userId, session.userPw)))]
    else if url == RootUrl then [LoadUrl(MainUrl)]
    else if ConfirmUrl <= url then [Execute(Some(Scripts.Confirm(session.userPw)))]
    else []
  }

  /** The requests `navigate` makes for a target: "login" reopens the login page,
      "window" the course page, anything else nothing. */
  function NavigateRequests(target: string): (rs: seq<Request>)
    ensures target == "login" ==> rs == [LoadUrl(LoginUrl)]
    ensures target == "window" ==> rs == [LoadUrl(MainUrl)]
    ensures target != "login" && target != "window" ==> rs == []
  {
    if target == "login" then [LoadUrl(LoginUrl)]
    else if target == "window" then [LoadUrl(MainUrl)]
    else []
  }

  /** The three pages `onLoad` reacts to are told apart: no URL matches two of its branches. */
  lemma DispatchIsUnambiguous()
    ensures LoginUrl != RootUrl
    ensures !(ConfirmUrl <= LoginUrl) && !(ConfirmUrl <= RootUrl)
    ensures !(ConfirmUrl <= MainUrl) && MainUrl != LoginUrl && MainUrl != RootUrl
  {
    assert LoginUrl[|BaseUrl| + 5] != ConfirmUrl[|BaseUrl| + 5];
    assert MainUrl[|BaseUrl| + 5] != ConfirmUrl[|BaseUrl| + 5];
    assert |RootUrl| < |ConfirmUrl|;
  }

  /** Loading the course page requests nothing more, so the root redirect cannot loop. */
  lemma CoursePageIsQuiet(session: Session)
    ensures OnLoadRequests(MainUrl, session) == []
  {
    DispatchIsUnambiguous();
  }

  /** The login page always gets the login script, whatever the session. */
  lemma LoginPageGetsLogin(session: Session)
    ensures OnLoadRequests(LoginUrl, session) == [Execute(Some(Scripts.LoginScript(session.userId, session.userPw)))]
  {
  }

  /** No request in the list loads another page. */
  predicate NoLoads(rs: seq<Request>)
  {
    forall k :: 0 <= k < |rs| ==> !rs[k].LoadUrl?
  }

  /** Redirects settle after one step: any page `onLoad` sends the window on to makes no
      further load of its own when it finishes loading. */
  lemma RedirectsSettle(url: string, session: Session)
    ensures var rs := OnLoadRequests(url, session);
      forall k :: 0 <= k < |rs| && rs[k].LoadUrl? ==> NoLoads(OnLoadRequests(rs[k].url, session))
  {
    if url == RootUrl {
      DispatchIsUnambiguous();
      CoursePageIsQuiet(session);
    }
  }

  /** Each navigation target opens a page that settles at once: the login page gets the
      login script with the session's id and password, the course page gets nothing. */
  lemma NavigationSettles(target: string, session: Session)
    ensures var rs := NavigateRequests(target);
      forall k :: 0 <= k < |rs| ==> rs[k].LoadUrl? && NoLoads(OnLoadRequests(rs[k].url, session))
    ensures target == "login" ==>
      OnLoadRequests(NavigateRequests(target)[0].url, session)
        == [Execute(Some(Scripts.LoginScript(session.userId, session.userPw)))]
    ensures target == "window" ==> OnLoadRequests(NavigateRequests(target)[0].url, session) == []
  {
    DispatchIsUnambiguous();
    CoursePageIsQuiet(session);
  }

  class WebApi {
    var window: Window?
    var session: Session

    /** `new WebApi()`: not started yet; the session is empty until `start`. */
    constructor ()
      ensures window == null && session == Session("", "")
    {
      window := null;
      session := Session("", "");
    }

    /** `start(window, session)`: binds the window and the session and opens the login page. */
    method Start(w: Window, s: Session)
      modifies this, w
      ensures window == w && session == s
      ensures w.url == old(w.url) && w.requests == old(w.requests) + [LoadUrl(LoginUrl)]
    {
      window := w;
      session := s;
      w.requests := w.requests + [LoadUrl(LoginUrl)];
    }

    /** `onLoad()`, run on `did-finish-load`. */
    method OnLoad()
      requires window != null
      modifies window
      ensures window.url == old(window.url)
      ensures window.requests == old(window.requests) + OnLoadRequests(window.url, session)
    {
      var w := window;
      if w.url == LoginUrl {
        w.requests := w.requests + [Execute(Some(Scripts.Login(session.userId, session.userPw)))];
      } else if w.url == RootUrl {
        w.requests := w.requests + [LoadUrl(MainUrl)];
      } else if ConfirmUrl <= w.url {
        w.requests := w.requests + [Execute(Some(Scripts.Confirm(session.userPw)))];
      }
    }

    /** `navigate(event, target)`. */
    method Navigate(target: string)
      requires window != null
      modifies window
      ensures window.url == old(window.url)
      ensures window.requests == old(window.requests) + NavigateRequests(target)
    {
      var w := window;
      if target == "login" {
        w.requests := w.requests + [LoadUrl(LoginUrl)];
      } else if target == "window" {
        w.requests := w.requests + [LoadUrl(MainUrl)];
      }
    }

    /** `onMenuReservation(r)`: runs the reservation script for `r` in this window, with the
        configured team name and size. */
    method OnMenuReservation(r: Reservation, groupName: string, groupCount: int)
      requires window != null
      modifies window
      ensures window.url == old(window.url)
      ensures window.requests == old(window.requests) + [Execute(
        match Scripts.Reservation(r, groupName, groupCount)
        case Some(p) => Some(Scripts.ReservationScript(p))
        case None => None)]
    {
      var w := window;
      var script := match Scripts.Reservation(r, groupName, groupCount)
        case Some(p) => Some(Scripts.ReservationScript(p))
        case None => None;
      w.requests := w.requests + [Execute(script)];
    }
  }
}
