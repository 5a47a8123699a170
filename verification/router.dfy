/**
 * The `match` in `handle_connection`: the first line of the decoded request
 * picks the index page, the built-in About page, a file under `public`, or
 * a fixed 500 answer when there is no line at all.
 */
module Router {
  import opened Wrappers
  import opened FileResolver

  const IndexPath: string := "public/index.html"

  /** The About page answered from memory, never from the filesystem. */
  const AboutPage: string := StatusOk + ("Content-Type: text/html\r\n\r\n" + AboutBody)

  const AboutBody: string :=
    "<html><head><title>About</title></head><body>"
    + "<h1>About Us</h1><p>This server is powered by Rust.</p>"
    + "</body></html>"

  /** The answer to a request that has no line at all. */
  const InternalError: string := StatusError + "\r\n500 Internal Server Error"

  const StatusError: string := "HTTP/1.1 500 Internal Server Error\r\n"

  /** The text before the first line feed, or all of `s` when it has none. */
  function UpToNewline(s: string): (line: string)
    ensures |line| <= |s| && line == s[..|line|]
    ensures '\n' !in line
    ensures |line| < |s| ==> s[|line|] == '\n'
  {
    if s == [] || s[0] == '\n' then [] else [s[0]] + UpToNewline(s[1..])
  }

  /**
   * `line` is what `lines()` yields first from a non-empty `request` that has
   * no line feed before it: all of the request, or the text before its first
   * line feed, less one carriage return just before that feed.
   */
  predicate IsFirstLine(request: string, line: string)
  {
    || request == line
    || line + "\r\n" <= request
    || (line + "\n" <= request && (line == [] || line[|line| - 1] != '\r'))
  }

  /**
   * `request.lines().next()`: no line for the empty text; otherwise the text
   * up to the first line feed, less a carriage return just before that feed.
   */
  function FirstLine(request: string): (r: Option<string>)
    ensures r.None? <==> request == []
    ensures r.Some? ==> '\n' !in r.value && r.value <= request
  {
    if request == [] then None
    else
      var line := UpToNewline(request);
      if |line| < |request| && line != [] && line[|line| - 1] == '\r' then Some(line[..|line| - 1])
      else Some(line)
  }

  /** The first line is the one `lines()` yields: it ends at the first line feed, less a carriage return before it. */
  lemma FirstLineIsLine(request: string)
    requires request != []
    ensures IsFirstLine(request, FirstLine(request).value)
  {
    var line := UpToNewline(request);
    if |line| < |request| && line != [] && line[|line| - 1] == '\r' {
      assert line[..|line| - 1] + "\r\n" == request[..|line| + 1];
    } else if |line| < |request| {
      assert line + "\n" == request[..|line| + 1];
    }
  }

  /** `char::is_whitespace`: the Unicode White_Space characters. */
  predicate IsWhitespace(c: char)
  {
    c == ' ' || '\t' <= c <= '\r' || c == '\U{85}' || c == '\U{A0}' || c == '\U{1680}'
    || '\U{2000}' <= c <= '\U{200A}' || c == '\U{2028}' || c == '\U{2029}' || c == '\U{202F}'
    || c == '\U{205F}' || c == '\U{3000}'
  }

  predicate NoWhitespace(s: string)
  {
    forall i :: 0 <= i < |s| ==> !IsWhitespace(s[i])
  }

  /** The leading run of non-whitespace characters of `s`. */
  function LeadingWord(s: string): (w: string)
    ensures |w| <= |s| && w == s[..|w|]
    ensures NoWhitespace(w)
    ensures |w| < |s| ==> IsWhitespace(s[|w|])
  {
    if s == [] || IsWhitespace(s[0]) then [] else [s[0]] + LeadingWord(s[1..])
  }

  /** `split_whitespace`: the maximal non-empty runs of non-whitespace characters, in order. */
  function Words(s: string): (ws: seq<string>)
    ensures forall i :: 0 <= i < |ws| ==> ws[i] != [] && NoWhitespace(ws[i])
    decreases |s|
  {
    if s == [] then []
    else if IsWhitespace(s[0]) then Words(s[1..])
    else
      var w := LeadingWord(s);
      [w] + Words(s[|w|..])
  }

  /** `split_whitespace().nth(1).unwrap_or("/")`. */
  function SecondWordOrRoot(line: string): string
  {
    var ws := Words(line);
    if |ws| >= 2 then ws[1] else "/"
  }

  /** What the first line asks for. */
  datatype Action = ServeFile(path: string) | ServeAbout | ServeError

  function Dispatch(request: string): Action
  {
    match FirstLine(request)
    case None => ServeError
    case Some(line) =>
      if StartsWith(line, "GET / ") then ServeFile(IndexPath)
      else if StartsWith(line, "GET /about ") then ServeAbout
      else ServeFile("public" + SecondWordOrRoot(line))
  }

  /** The requests on which routing returns: any file it reads exists, or the fallback page does. */
  predicate Resolvable(fs: FileSystem, request: string)
  {
    Dispatch(request).ServeFile? ==> Resolves(fs, Dispatch(request).path)
  }

  /** The response text for a decoded request. */
  function Route(fs: FileSystem, request: string): string
    requires Resolvable(fs, request)
  {
    match Dispatch(request)
    case ServeFile(path) => ReadFile(fs, path)
    case ServeAbout => AboutPage
    case ServeError => InternalError
  }

  /** The four answers of the routing `match`. */
  lemma RouteCases(fs: FileSystem, request: string)
    requires Resolvable(fs, request)
    ensures request == [] ==> Route(fs, request) == InternalError
    ensures request != [] && StartsWith(FirstLine(request).value, "GET / ") ==>
              Route(fs, request) == ReadFile(fs, IndexPath)
    ensures request != [] && StartsWith(FirstLine(request).value, "GET /about ") ==>
              Route(fs, request) == AboutPage
    ensures request != [] && !StartsWith(FirstLine(request).value, "GET / ")
              && !StartsWith(FirstLine(request).value, "GET /about ") ==>
              Route(fs, request) == ReadFile(fs, "public" + SecondWordOrRoot(FirstLine(request).value))
  {
    if request != [] {
      var line := FirstLine(request).value;
      if StartsWith(line, "GET /about ") {
        AboutIsNotIndex(line);
      }
    }
  }

  /** `GET /about ` is not caught by the earlier `GET / ` arm. */
  lemma AboutIsNotIndex(line: string)
    requires StartsWith(line, "GET /about ")
    ensures !StartsWith(line, "GET / ")
  {
    assert line[5] == "GET /about "[5];
  }

  /** The About page does not depend on the filesystem. */
  lemma AboutIgnoresFiles(fs: FileSystem, other: FileSystem, request: string)
    requires Dispatch(request) == ServeAbout
    ensures Route(fs, request) == Route(other, request) == AboutPage
  {
  }

  /** The 500 answer is given exactly to the empty request; every other answer has status 200. */
  lemma RouteStatus(fs: FileSystem, request: string)
    requires Resolvable(fs, request)
    ensures Route(fs, request) == InternalError <==> request == []
    ensures request != [] ==> StartsWith(Route(fs, request), StatusOk)
  {
    if request != [] {
      var r := Route(fs, request);
      var action := Dispatch(request);
      if action.ServeFile? {
        ReadFileStatusOk(fs, action.path);
      } else {
        assert action.ServeAbout?;
        HeadOfAppend(StatusOk, "Content-Type: text/html\r\n\r\n" + AboutBody, []);
        assert AboutPage + [] == AboutPage;
      }
      assert r[..|StatusOk|] == StatusOk;
      assert r[9] == StatusOk[9] == '2';
      HeadOfAppend(StatusError, "\r\n500 Internal Server Error", []);
      assert InternalError + [] == InternalError;
      assert InternalError[9] == StatusError[9] == '5';
    }
  }

  /** The first line ends at the first line feed, whatever follows it. */
  lemma UpToNewlineBefore(a: string, rest: string)
    requires '\n' !in a && rest != [] && rest[0] == '\n'
    ensures UpToNewline(a + rest) == a
  {
    var s := a + rest;
    var line := UpToNewline(s);
    assert line == s[..|a|] == a;
  }

  /** Only the first line of the request decides the answer. */
  lemma FirstLineDecides(a: string, rest: string, rest': string)
    requires '\n' !in a
    ensures Dispatch(a + "\n" + rest) == Dispatch(a + "\n" + rest')
  {
    FirstLineBeforeFeed(a, rest);
    FirstLineBeforeFeed(a, rest');
  }

  /** The first line is the text before the first line feed, less a carriage return at its end. */
  lemma FirstLineBeforeFeed(a: string, rest: string)
    requires '\n' !in a
    ensures FirstLine(a + "\n" + rest) == if a != [] && a[|a| - 1] == '\r' then Some(a[..|a| - 1]) else Some(a)
  {
    UpToNewlineBefore(a, "\n" + rest);
    AppendAssoc(a, "\n", rest);
  }

  lemma AppendAssoc<T>(a: seq<T>, b: seq<T>, c: seq<T>)
    ensures a + b + c == a + (b + c)
  {
  }

  /** The non-whitespace characters of `s`, in order. */
  function Printable(s: string): string
  {
    if s == [] then [] else (if IsWhitespace(s[0]) then [] else [s[0]]) + Printable(s[1..])
  }

  function Concat(ws: seq<string>): string
  {
    if ws == [] then [] else ws[0] + Concat(ws[1..])
  }

  lemma {:induction false} PrintableAppend(x: string, y: string)
    ensures Printable(x + y) == Printable(x) + Printable(y)
  {
    if x == [] {
      assert x + y == y;
    } else {
      assert (x + y)[1..] == x[1..] + y;
      PrintableAppend(x[1..], y);
    }
  }

  lemma {:induction false} PrintableWord(w: string)
    requires NoWhitespace(w)
    ensures Printable(w) == w
  {
    if w != [] {
      PrintableWord(w[1..]);
    }
  }

  /** Splitting at whitespace drops the whitespace and nothing else. */
  lemma {:induction false} WordsKeepText(s: string)
    ensures Concat(Words(s)) == Printable(s)
    decreases |s|
  {
    if s != [] {
      if IsWhitespace(s[0]) {
        WordsKeepText(s[1..]);
      } else {
        var w := LeadingWord(s);
        var tail := s[|w|..];
        WordsKeepText(tail);
        assert Words(s) == [w] + Words(tail);
        assert Concat(Words(s)) == w + Concat(Words(tail));
        assert s == w + tail;
        PrintableAppend(w, tail);
        PrintableWord(w);
      }
    }
  }

  /** A word followed by whitespace (or by nothing) is the first of the words. */
  lemma WordsCons(w: string, rest: string)
    requires w != [] && NoWhitespace(w)
    requires rest == [] || IsWhitespace(rest[0])
    ensures Words(w + rest) == [w] + Words(rest)
  {
    var s := w + rest;
    var lead := LeadingWord(s);
    assert lead == s[..|w|] == w;
    assert s[|w|..] == rest;
  }

  /** The words of an RFC 9112 request-line `method SP request-target SP HTTP-version`. */
  lemma RequestLineWords(requestMethod: string, target: string, version: string)
    requires requestMethod != [] && target != [] && version != []
    requires NoWhitespace(requestMethod) && NoWhitespace(target) && NoWhitespace(version)
    ensures Words(requestMethod + " " + target + " " + version) == [requestMethod, target, version]
  {
    var v1 := " " + version;
    var t := target + v1;
    var t1 := " " + t;
    WordsCons(version, []);
    assert version + [] == version;
    WordsAfterWhitespace(' ', version);
    WordsCons(target, v1);
    WordsAfterWhitespace(' ', t);
    WordsCons(requestMethod, t1);
    Regroup(requestMethod, " ", target, " ", version);
  }

  lemma Regroup<T>(a: seq<T>, b: seq<T>, c: seq<T>, d: seq<T>, e: seq<T>)
    ensures a + (b + (c + (d + e))) == a + b + c + d + e
  {
  }

  /** Leading whitespace, of any kind, yields no word. */
  lemma WordsAfterWhitespace(c: char, s: string)
    requires IsWhitespace(c)
    ensures Words([c] + s) == Words(s)
  {
    assert ([c] + s)[1..] == s;
  }

  /**
   * A request-line `method SP target SP version` starts with `m SP t SP` exactly
   * when its method is `m` and its target is `t`.
   */
  lemma RequestLinePrefix(requestMethod: string, target: string, version: string, m: string, t: string)
    requires requestMethod != [] && target != [] && m != [] && t != []
    requires NoWhitespace(requestMethod) && NoWhitespace(target) && NoWhitespace(m) && NoWhitespace(t)
    ensures StartsWith(requestMethod + " " + target + " " + version, m + " " + t + " ")
            <==> requestMethod == m && target == t
  {
    var line := requestMethod + " " + target + " " + version;
    var p := m + " " + t + " ";
    var a := |requestMethod|;
    assert line[a] == ' ';
    assert forall i :: 0 <= i < a ==> line[i] == requestMethod[i];
    assert forall i :: 0 <= i < |target| ==> line[a + 1 + i] == target[i];
    assert line[a + 1 + |target|] == ' ';
    if StartsWith(line, p) {
      assert forall i :: 0 <= i < |p| ==> line[i] == p[i];
      assert p[|m|] == ' ';
      assert requestMethod == m;
      assert p[a + 1 + |t|] == ' ';
      assert target == t;
    }
  }

  /** A line ended by CR LF is the first line, without the CR. */
  lemma FirstLineCrLf(line: string, rest: string)
    requires '\n' !in line
    ensures FirstLine(line + "\r\n" + rest) == Some(line)
  {
    var cr := line + "\r";
    UpToNewlineBefore(cr, "\n" + rest);
    Regroup(line, "\r", "\n", rest, []);
    assert line + "\r\n" + rest == cr + ("\n" + rest);
  }

  /** The two routing prefixes, as method, space, target, space. */
  lemma RoutePrefixes()
    ensures NoWhitespace("GET") && NoWhitespace("/") && NoWhitespace("/about")
    ensures "GET / " == "GET" + " " + "/" + " "
    ensures "GET /about " == "GET" + " " + "/about" + " "
  {
  }

  /**
   * Routing of a request that opens with an RFC 9112 request-line: the index
   * page for `GET /`, the About page for `GET /about`, and otherwise the
   * request-target under `public`, whatever the method.
   */
  lemma DispatchRequestLine(requestMethod: string, target: string, version: string, rest: string)
    requires requestMethod != [] && target != [] && version != []
    requires NoWhitespace(requestMethod) && NoWhitespace(target) && NoWhitespace(version)
    ensures Dispatch(requestMethod + " " + target + " " + version + "\r\n" + rest)
            == if requestMethod == "GET" && target == "/" then ServeFile(IndexPath)
               else if requestMethod == "GET" && target == "/about" then ServeAbout
               else ServeFile("public" + target)
  {
    var line := requestMethod + " " + target + " " + version;
    assert forall i :: 0 <= i < |line| ==> !IsWhitespace(line[i]) || line[i] == ' ';
    FirstLineCrLf(line, rest);
    RoutePrefixes();
    RequestLinePrefix(requestMethod, target, version, "GET", "/");
    RequestLinePrefix(requestMethod, target, version, "GET", "/about");
    RequestLineWords(requestMethod, target, version);
  }
}
