/**
 * `read_file`: maps a path under the served root to a complete HTTP/1.1
 * response, falling back to `public/404.html` when the read fails.
 *
 * The filesystem is a map from path to file contents: `fs::read` succeeds
 * exactly on the paths the map holds.
 */
module FileResolver {
  import opened Wrappers
  import opened Utf8

  type FileSystem = map<string, seq<byte>>

  /** The path `read_file` recurses into when a read fails. */
  const NotFoundPath: string := "public/404.html"

  const StatusOk: string := "HTTP/1.1 200 OK\r\n"

  predicate StartsWith(s: string, prefix: string)
  {
    |prefix| <= |s| && s[..|prefix|] == prefix
  }

  predicate EndsWith(s: string, suffix: string)
  {
    |suffix| <= |s| && s[|s| - |suffix|..] == suffix
  }

  /** Content type by path suffix; `.css` is tested before `.js`, anything else is HTML. */
  function ContentType(path: string): (ct: string)
    ensures ct == "text/css" <==> EndsWith(path, ".css")
    ensures ct == "application/javascript" <==> !EndsWith(path, ".css") && EndsWith(path, ".js")
    ensures ct == "text/html" <==> !EndsWith(path, ".css") && !EndsWith(path, ".js")
  {
    if EndsWith(path, ".css") then "text/css"
    else if EndsWith(path, ".js") then "application/javascript"
    else "text/html"
  }

  /** The response head built by `format!` for a successful read. */
  function Header(contentType: string): string
  {
    StatusOk + ("Content-Type: " + contentType + "\r\n\r\n")
  }

  /** What one activation of `read_file` does: answer, or call itself on another path. */
  datatype Step = Respond(response: string) | Recurse(path: string)

  function ReadStep(fs: FileSystem, path: string): Step
  {
    if path in fs then
      Respond(Decode(Encode(Header(ContentType(path))) + fs[path]))
    else
      Recurse(NotFoundPath)
  }

  /** The inputs on which `read_file` returns: the file exists, or the fallback does. */
  predicate Resolves(fs: FileSystem, path: string)
  {
    path in fs || NotFoundPath in fs
  }

  /**
   * `read_file`: the head followed by the lossy decoding of the file, or the
   * same for the fallback page (always with status 200).
   */
  function ReadFile(fs: FileSystem, path: string): (r: string)
    requires Resolves(fs, path)
    ensures path in fs ==> r == Header(ContentType(path)) + Decode(fs[path])
    ensures path !in fs ==> r == Header("text/html") + Decode(fs[NotFoundPath])
    decreases if path in fs then 0 else 1
  {
    match ReadStep(fs, path)
    case Respond(response) =>
      DecodeAfterEncode(Header(ContentType(path)), fs[path]);
      response
    case Recurse(next) =>
      assert ContentType(next) == "text/html";
      ReadFile(fs, next)
  }

  /** `read_file` run for at most `fuel` activations; `None` when it has not answered by then. */
  function Unfold(fs: FileSystem, path: string, fuel: nat): Option<string>
    decreases fuel
  {
    if fuel == 0 then None
    else
      match ReadStep(fs, path)
      case Respond(response) => Some(response)
      case Recurse(next) => Unfold(fs, next, fuel - 1)
  }

  /** Without the fallback page, a missing path never yields an answer, however deep the recursion goes. */
  lemma {:induction false} MissingFallbackDiverges(fs: FileSystem, path: string, fuel: nat)
    requires path !in fs && NotFoundPath !in fs
    ensures Unfold(fs, path, fuel) == None
    decreases fuel
  {
    if fuel > 0 {
      MissingFallbackDiverges(fs, NotFoundPath, fuel - 1);
    }
  }

  /** Whenever `read_file` answers at all, its precondition held and the answer is `ReadFile`'s. */
  lemma {:induction false} UnfoldAgrees(fs: FileSystem, path: string, fuel: nat)
    ensures Unfold(fs, path, fuel).Some? <==> Resolves(fs, path) && fuel >= (if path in fs then 1 else 2)
    ensures Unfold(fs, path, fuel).Some? ==> Unfold(fs, path, fuel).value == ReadFile(fs, path)
    decreases fuel
  {
    if fuel > 0 && path !in fs {
      UnfoldAgrees(fs, NotFoundPath, fuel - 1);
      if NotFoundPath !in fs {
        MissingFallbackDiverges(fs, path, fuel);
      }
    }
  }

  /** A missing file is answered exactly as a request for the fallback page. */
  lemma MissingServesFallback(fs: FileSystem, path: string)
    requires path !in fs && NotFoundPath in fs
    ensures ReadFile(fs, path) == ReadFile(fs, NotFoundPath)
  {
  }

  /** The status line is `200 OK` on every answer, the fallback page included. */
  lemma ReadFileStatusOk(fs: FileSystem, path: string)
    requires Resolves(fs, path)
    ensures StartsWith(ReadFile(fs, path), StatusOk)
  {
    var ct := if path in fs then ContentType(path) else "text/html";
    var body := if path in fs then fs[path] else fs[NotFoundPath];
    var response := ReadFile(fs, path);
    assert response == StatusOk + ("Content-Type: " + ct + "\r\n\r\n") + Decode(body);
    HeadOfAppend(StatusOk, "Content-Type: " + ct + "\r\n\r\n", Decode(body));
  }

  lemma HeadOfAppend<T>(a: seq<T>, b: seq<T>, c: seq<T>)
    ensures (a + b + c)[..|a|] == a
  {
  }

  /** The content type depends on the path's last four characters only. */
  lemma ContentTypeBySuffix(prefix: string, path: string)
    requires |path| >= 4
    ensures ContentType(prefix + path) == ContentType(path)
  {
    EndsWithAppend(prefix, path, ".css");
    EndsWithAppend(prefix, path, ".js");
  }

  lemma EndsWithAppend(prefix: string, path: string, suffix: string)
    requires |suffix| <= |path|
    ensures EndsWith(prefix + path, suffix) <==> EndsWith(path, suffix)
  {
    var p := prefix + path;
    assert p[|p| - |suffix|..] == path[|path| - |suffix|..];
  }

  /** `as_bytes` distributes over concatenation. */
  lemma {:induction false} EncodeAppend(a: string, b: string)
    ensures Encode(a + b) == Encode(a) + Encode(b)
  {
    if a == [] {
      assert a + b == b;
    } else {
      assert (a + b)[1..] == a[1..] + b;
      EncodeAppend(a[1..], b);
    }
  }

  /**
   * The bytes sent for a file are the head followed by the file, byte for
   * byte, exactly when the file is well-formed UTF-8: any other file reaches
   * the peer altered.
   */
  lemma ServedBytes(fs: FileSystem, path: string)
    requires path in fs
    ensures Encode(ReadFile(fs, path)) == Encode(Header(ContentType(path))) + fs[path] <==> Valid(fs[path])
  {
    var head := Encode(Header(ContentType(path)));
    EncodeAppend(Header(ContentType(path)), Decode(fs[path]));
    if Valid(fs[path]) {
      EncodeAfterDecode(fs[path]);
    }
    if Encode(ReadFile(fs, path)) == head + fs[path] {
      var sent := Encode(Decode(fs[path]));
      assert (head + sent)[|head|..] == sent;
      assert (head + fs[path])[|head|..] == fs[path];
      EncodeIsValid(Decode(fs[path]));
    }
  }
}
