/** The front-end file server's request handler: the `/` default, the
    extension to content-type table, and the choice of response from the
    outcome of reading the file. The file system is a parameter: `fs(p)`
    is what reading the file at root-relative path `p` yields. */
module StaticServer {
  import opened Basics

  newtype byte = x: int | 0 <= x < 256

  /** What `fs.readFile` hands its callback: the content, or an error code. */
  datatype ReadOutcome = Loaded(content: seq<byte>) | Failed(code: string)

  /** A response body: file bytes, or a text message. */
  datatype Body = Bytes(bytes: seq<byte>) | Text(text: string)

  datatype HttpResponse = HttpResponse(status: nat, headers: seq<(string, string)>, body: Body)

  const IndexDocument := "/index.html"
  const NoSuchFile := "ENOENT"
  const OctetStream := "application/octet-stream"

  const MimeTypes: map<string, string> := map[
    ".html" := "text/html",
    ".js" := "text/javascript",
    ".css" := "text/css",
    ".json" := "application/json",
    ".png" := "image/png",
    ".jpg" := "image/jpg",
    ".gif" := "image/gif",
    ".ico" := "image/x-icon"
  ]

  // ------------------------------------------------------------- paths

  /** The path that is read: `/` stands for the index document, so `/`
      itself is never read; every other pathname is read as given. */
  function RequestPath(pathname: string): (r: string)
    ensures r != "/"
    ensures pathname != "/" ==> r == pathname
    ensures pathname == "/" ==> r == IndexDocument
  {
    if pathname == "/" then IndexDocument else pathname
  }

  /** `p` without its trailing slashes. */
  function TrimSlashes(p: string): (r: string)
    ensures |r| <= |p| && r == p[..|r|]
    ensures r == [] || r[|r| - 1] != '/'
  {
    if p != [] && p[|p| - 1] == '/' then TrimSlashes(p[..|p| - 1]) else p
  }

  /** The part of `p` after its last slash. */
  function LastSegment(p: string): (r: string)
    ensures |r| <= |p| && r == p[|p| - |r|..]
    ensures '/' !in r
  {
    if p == [] || p[|p| - 1] == '/' then [] else LastSegment(p[..|p| - 1]) + [p[|p| - 1]]
  }

  /** Index of the last dot in `s`. */
  function LastDot(s: string): (r: Option<nat>)
    ensures r.Some? ==> r.value < |s| && s[r.value] == '.' && '.' !in s[r.value + 1..]
    ensures r.None? ==> '.' !in s
  {
    if s == [] then None
    else if s[|s| - 1] == '.' then Some(|s| - 1)
    else LastDot(s[..|s| - 1])
  }

  /** `path.extname`: from the last dot of the last segment to its end;
      empty when that segment has no dot, starts with its only dot, or is `..`. */
  function ExtName(p: string): (r: string)
    ensures r == [] || (r[0] == '.' && '.' !in r[1..] && '/' !in r)
  {
    SegmentExt(LastSegment(TrimSlashes(p)))
  }

  /** The extension of one path segment `base` (which holds no slash). */
  function SegmentExt(base: string): (r: string)
    requires '/' !in base
    ensures r == [] || (r[0] == '.' && '.' !in r[1..] && '/' !in r)
  {
    match LastDot(base)
    case None => ""
    case Some(k) => if k == 0 || base == ".." then "" else base[k..]
  }

  // ------------------------------------------------------- content type

  /** The content type for an extension, looked up after lower-casing it:
      one of the eight table entries, or the octet-stream fallback exactly
      when the lower-cased extension is not in the table. */
  function MimeFor(ext: string): (r: string)
    ensures ToLower(ext) in MimeTypes ==> r == MimeTypes[ToLower(ext)]
    ensures r == OctetStream <==> ToLower(ext) !in MimeTypes
  {
    var key := ToLower(ext);
    if key in MimeTypes then MimeTypes[key] else OctetStream
  }

  /** The content type served for `path`: the table entry of its lower-cased
      extension, or the octet-stream fallback exactly when there is none. */
  function ContentType(path: string): (r: string)
    ensures ToLower(ExtName(path)) in MimeTypes ==> r == MimeTypes[ToLower(ExtName(path))]
    ensures r == OctetStream <==> ToLower(ExtName(path)) !in MimeTypes
    ensures r != OctetStream ==> r in MimeTypes.Values
  {
    MimeFor(ExtName(path))
  }

  // ---------------------------------------------------------- response

  const ErrorPrefix := "Sorry, check with the site admin for error: "
  const ErrorSuffix := " ..\n"

  /** The text of a 500 answer: the error code, intact, between a fixed
      prefix and suffix. */
  function ServerErrorText(code: string): (r: string)
    ensures |r| == |ErrorPrefix| + |code| + |ErrorSuffix|
    ensures r[..|ErrorPrefix|] == ErrorPrefix
    ensures r[|ErrorPrefix|..|ErrorPrefix| + |code|] == code
    ensures r[|ErrorPrefix| + |code|..] == ErrorSuffix
  {
    ErrorPrefix + code + ErrorSuffix
  }

  /** Different error codes give different 500 texts. */
  lemma ServerErrorTextNamesCode(a: string, b: string)
    ensures ServerErrorText(a) == ServerErrorText(b) <==> a == b
  {
    if ServerErrorText(a) == ServerErrorText(b) {
      assert |a| == |b|;
      assert a == ServerErrorText(a)[|ErrorPrefix|..|ErrorPrefix| + |a|];
    }
  }

  /** The response to a request for `pathname`:
      - the file read: 200, its content type, `Access-Control-Allow-Origin: *`, its bytes;
      - no such file: 200, `text/html`, the bytes of the index document
        (an empty body if that read fails too, as its error is ignored);
      - any other read error: 500, no headers, a message naming the code. */
  function Handle(pathname: string, fs: string -> ReadOutcome): (r: HttpResponse)
    ensures r.status == 200 || r.status == 500
    ensures r.status == 500 <==> fs(RequestPath(pathname)).Failed? && fs(RequestPath(pathname)).code != NoSuchFile
    ensures fs(RequestPath(pathname)).Loaded? ==>
              r.body == Bytes(fs(RequestPath(pathname)).content) &&
              r.headers == [("Content-Type", ContentType(RequestPath(pathname))), ("Access-Control-Allow-Origin", "*")]
    ensures fs(RequestPath(pathname)) == Failed(NoSuchFile) ==>
              r.headers == [("Content-Type", "text/html")] &&
              r.body == Bytes(if fs(IndexDocument).Loaded? then fs(IndexDocument).content else [])
    ensures r.status == 500 ==>
              r.headers == [] && r.body == Text(ServerErrorText(fs(RequestPath(pathname)).code))
  {
    var path := RequestPath(pathname);
    match fs(path)
    case Loaded(content) =>
      HttpResponse(200, [("Content-Type", ContentType(path)), ("Access-Control-Allow-Origin", "*")], Bytes(content))
    case Failed(code) =>
      if code == NoSuchFile then
        var index := fs(IndexDocument);
        HttpResponse(200, [("Content-Type", "text/html")], Bytes(if index.Loaded? then index.content else []))
      else
        HttpResponse(500, [], Text(ServerErrorText(code)))
  }

  // ------------------------------------------------------------ lemmas

  /** A request for `/` is answered exactly as one for `/index.html`;
      any other pathname is read as it is. */
  lemma RootIsIndex(fs: string -> ReadOutcome)
    ensures Handle("/", fs) == Handle(IndexDocument, fs)
    ensures forall p :: p != "/" ==> RequestPath(p) == p
  {
  }

  /** An extension already in lower case is looked up as it is. */
  lemma {:induction false} LowerOfLower(s: string)
    requires forall i :: 0 <= i < |s| ==> !IsUpper(s[i])
    ensures ToLower(s) == s
  {
  }

  /** Every key of the table is looked up as it is. */
  lemma MimeForTableKey(e: string)
    requires e in MimeTypes
    ensures MimeFor(e) == MimeTypes[e]
  {
    TableKeysShaped();
  }

  /** The four text entries of the table. */
  lemma TextEntries()
    ensures MimeFor(".html") == "text/html" && MimeFor(".js") == "text/javascript"
    ensures MimeFor(".css") == "text/css" && MimeFor(".json") == "application/json"
  {
    MimeForTableKey(".html");
    MimeForTableKey(".js");
    MimeForTableKey(".css");
    MimeForTableKey(".json");
  }

  /** The four image entries of the table; `.jpg` is served as `image/jpg`. */
  lemma ImageEntries()
    ensures MimeFor(".png") == "image/png" && MimeFor(".jpg") == "image/jpg"
    ensures MimeFor(".gif") == "image/gif" && MimeFor(".ico") == "image/x-icon"
  {
    MimeForTableKey(".png");
    MimeForTableKey(".jpg");
    MimeForTableKey(".gif");
    MimeForTableKey(".ico");
  }

  /** No extension, or one outside the table, gets the octet-stream fallback. */
  lemma UnknownExtensions()
    ensures MimeFor("") == OctetStream
    ensures MimeFor(".svg") == OctetStream
  {
    LowerOfLower(".svg");
  }

  // ------------------------------------------------ which extension

  /** A path that ends in a character other than `/` has no trailing slash to strip. */
  lemma TrimSlashesNone(p: string)
    requires p != [] && p[|p| - 1] != '/'
    ensures TrimSlashes(p) == p
  {
  }

  /** A character other than a slash appended to a path extends its last segment. */
  lemma LastSegmentSnoc(p: string, c: char)
    requires c != '/'
    ensures LastSegment(p + [c]) == LastSegment(p) + [c]
  {
    assert (p + [c])[..|p|] == p;
  }

  /** Text without a slash appended to a path extends its last segment. */
  lemma {:induction false} LastSegmentAppend(q: string, e: string)
    requires '/' !in e
    ensures LastSegment(q + e) == LastSegment(q) + e
  {
    if e == [] {
      assert q + e == q;
    } else {
      var init, c := e[..|e| - 1], e[|e| - 1];
      assert c != '/' && '/' !in init by {
        assert c in e;
        assert forall k :: 0 <= k < |init| ==> init[k] == e[k];
      }
      assert e == init + [c];
      calc {
        LastSegment(q + e);
        { assert q + e == (q + init) + [c]; }
        LastSegment((q + init) + [c]);
        { LastSegmentSnoc(q + init, c); }
        LastSegment(q + init) + [c];
        { LastSegmentAppend(q, init); }
        (LastSegment(q) + init) + [c];
        LastSegment(q) + e;
      }
    }
  }

  /** The last dot of `b + "." + rest` is the one after `b` when `rest` has none. */
  lemma {:induction false} LastDotAfter(b: string, rest: string)
    requires '.' !in rest
    ensures LastDot(b + "." + rest) == Some(|b|)
  {
    if rest != [] {
      var init := rest[..|rest| - 1];
      assert (b + "." + rest)[..|b + "." + rest| - 1] == b + "." + init;
      LastDotAfter(b, init);
    }
  }

  /** The shape of a file extension: a dot, at least one more character,
      no further dot and no slash. */
  predicate ExtensionShaped(e: string) {
    |e| >= 2 && e[0] == '.' && '.' !in e[1..] && '/' !in e
  }

  /** A path that ends in a file name followed by an extension-shaped `e`
      has extension exactly `e`: `/app.js` has `.js`, `/a/b.min.css` has `.css`. */
  lemma ExtNameSuffix(q: string, e: string)
    requires q != [] && q[|q| - 1] != '/'
    requires ExtensionShaped(e)
    ensures ExtName(q + e) == e
  {
    SegmentOfSuffix(q, e);
    SegmentExtOfSuffix(LastSegment(q), e);
  }

  /** The last segment of `q + e`, for `q` not ending in a slash and `e`
      without one, is the non-empty last segment of `q` followed by `e`. */
  lemma SegmentOfSuffix(q: string, e: string)
    requires q != [] && q[|q| - 1] != '/'
    requires '/' !in e
    ensures LastSegment(q) != []
    ensures LastSegment(TrimSlashes(q + e)) == LastSegment(q) + e
  {
    assert LastSegment(q) == LastSegment(q[..|q| - 1]) + [q[|q| - 1]];
    var t := q + e;
    if e == [] {
      assert t == q;
    } else {
      assert e[|e| - 1] in e;
      assert t[|t| - 1] == e[|e| - 1];
    }
    TrimSlashesNone(t);
    LastSegmentAppend(q, e);
  }

  /** The extension of a segment made of a non-empty name and an extension is that extension. */
  lemma SegmentExtOfSuffix(b: string, e: string)
    requires b != [] && '/' !in b
    requires ExtensionShaped(e)
    ensures '/' !in b + e
    ensures SegmentExt(b + e) == e
  {
    var seg := b + e;
    assert LastDot(seg) == Some(|b|) by {
      assert seg == b + "." + e[1..];
      LastDotAfter(b, e[1..]);
    }
    assert |seg| >= 3;
    assert seg[|b|..] == e;
  }

  /** A path with no dot at all has no extension, and is served as octet-stream. */
  lemma ExtNameNoDot(p: string)
    requires '.' !in p
    ensures ExtName(p) == ""
    ensures ContentType(p) == OctetStream
  {
    var t := TrimSlashes(p);
    var seg := LastSegment(t);
    assert '.' !in seg by {
      forall k | 0 <= k < |seg| ensures seg[k] != '.' {
        assert seg[k] == t[|t| - |seg| + k] == p[|t| - |seg| + k];
      }
    }
    assert ExtName(p) == "" by {
      assert LastDot(seg) == None;
    }
    UnknownExtensions();
  }

  /** A last segment that starts with its only dot names a hidden file,
      which has no extension: `/.env` and `/a/.gitignore` have `""`. */
  lemma ExtNameHiddenFile(q: string, n: string)
    requires '.' !in n && '/' !in n
    ensures ExtName(q + "/." + n) == ""
  {
    var t, seg := q + "/." + n, "." + n;
    assert '/' !in seg;
    assert TrimSlashes(t) == t by {
      assert t[|t| - 1] == seg[|seg| - 1];
      TrimSlashesNone(t);
    }
    assert LastSegment(t) == seg by {
      assert t == (q + "/") + seg;
      LastSegmentAppend(q + "/", seg);
      assert LastSegment(q + "/") == [];
    }
    assert LastDot(seg) == Some(0) by {
      assert seg == [] + "." + n;
      LastDotAfter([], n);
    }
  }

  /** A path whose last segment is `..` has no extension. */
  lemma ExtNameDotDot(q: string)
    ensures ExtName(q + "/..") == ""
  {
    var t := q + "/..";
    assert t == (q + "/") + "..";
    TrimSlashesNone(t);
    LastSegmentAppend(q + "/", "..");
    assert LastSegment(q + "/") == [];
    assert LastSegment(t) == "..";
  }

  /** A dot followed by lower-case letters is an extension in lower case. */
  lemma LetterExtension(e: string)
    requires |e| >= 2 && e[0] == '.'
    requires forall i :: 1 <= i < |e| ==> 'a' <= e[i] <= 'z'
    ensures ExtensionShaped(e) && ToLower(e) == e
  {
    LowerOfLower(e);
  }

  /** Every key of the table is an extension in lower case. */
  lemma TableKeysShaped()
    ensures forall e :: e in MimeTypes ==> ExtensionShaped(e) && ToLower(e) == e
  {
    forall e | e in MimeTypes ensures ExtensionShaped(e) && ToLower(e) == e {
      LetterExtension(e);
    }
  }

  /** A request for a file named with an extension of the table gets that
      entry's content type: `/app.js` is served as `text/javascript`,
      `/img/logo.png` as `image/png`. */
  lemma ContentTypeOfTableFile(q: string, e: string)
    requires q != [] && q[|q| - 1] != '/'
    requires e in MimeTypes
    ensures ContentType(q + e) == MimeTypes[e]
  {
    TableKeysShaped();
    ExtNameSuffix(q, e);
  }

  /** Lower-casing keeps slashes and dots exactly where they were. */
  lemma LowerKeepsSeparators(c: char)
    ensures LowerChar(c) == '/' <==> c == '/'
    ensures LowerChar(c) == '.' <==> c == '.'
  {
  }

  /** Stripping trailing slashes commutes with lower-casing. */
  lemma {:induction false} TrimSlashesLower(p: string)
    ensures TrimSlashes(ToLower(p)) == ToLower(TrimSlashes(p))
  {
    if p != [] {
      LowerKeepsSeparators(p[|p| - 1]);
      LowerPrefix(p, |p| - 1);
      if p[|p| - 1] == '/' {
        TrimSlashesLower(p[..|p| - 1]);
      }
    }
  }

  /** Taking the last segment commutes with lower-casing. */
  lemma {:induction false} LastSegmentLower(p: string)
    ensures LastSegment(ToLower(p)) == ToLower(LastSegment(p))
  {
    if p != [] {
      var init, c := p[..|p| - 1], p[|p| - 1];
      LowerKeepsSeparators(c);
      LowerPrefix(p, |p| - 1);
      var lp := ToLower(p);
      assert lp[|lp| - 1] == LowerChar(c);
      assert lp[..|lp| - 1] == ToLower(init);
      if c != '/' {
        calc {
          LastSegment(lp);
          LastSegment(ToLower(init)) + [LowerChar(c)];
          { LastSegmentLower(init); }
          ToLower(LastSegment(init)) + ToLower([c]);
          { ToLowerAppend(LastSegment(init), [c]); }
          ToLower(LastSegment(init) + [c]);
        }
      }
    }
  }

  /** Lower-casing moves no dot, so the last dot stays where it was. */
  lemma {:induction false} LastDotLower(s: string)
    ensures LastDot(ToLower(s)) == LastDot(s)
  {
    if s != [] {
      LowerKeepsSeparators(s[|s| - 1]);
      LowerPrefix(s, |s| - 1);
      if s[|s| - 1] != '.' {
        LastDotLower(s[..|s| - 1]);
      }
    }
  }

  /** Lower-casing adds no slash. */
  lemma LowerKeepsNoSlash(s: string)
    requires '/' !in s
    ensures '/' !in ToLower(s)
  {
    forall i | 0 <= i < |s| ensures ToLower(s)[i] != '/' {
      LowerKeepsSeparators(s[i]);
    }
  }

  /** Only `..` lower-cases to `..`. */
  lemma LowerDotDot(s: string)
    ensures ToLower(s) == ".." <==> s == ".."
  {
    if |s| == 2 {
      LowerKeepsSeparators(s[0]);
      LowerKeepsSeparators(s[1]);
      assert ToLower(s) == [LowerChar(s[0]), LowerChar(s[1])];
    }
  }

  /** Taking a segment's extension commutes with lower-casing. */
  lemma SegmentExtLower(base: string)
    requires '/' !in base
    ensures '/' !in ToLower(base)
    ensures SegmentExt(ToLower(base)) == ToLower(SegmentExt(base))
  {
    LowerKeepsNoSlash(base);
    LastDotLower(base);
    LowerDotDot(base);
    if LastDot(base).Some? {
      LowerPrefix(base, LastDot(base).value);
    }
  }

  /** Extracting the extension commutes with lower-casing. */
  lemma ExtNameLower(p: string)
    ensures ExtName(ToLower(p)) == ToLower(ExtName(p))
  {
    TrimSlashesLower(p);
    LastSegmentLower(TrimSlashes(p));
    SegmentExtLower(LastSegment(TrimSlashes(p)));
  }

  /** The content type ignores the case of the extension:
      `/a.HTML` and `/a.html` are both served as `text/html`. */
  lemma ContentTypeIgnoresCase(p: string)
    ensures ContentType(ToLower(p)) == ContentType(p)
  {
    ExtNameLower(p);
    ToLowerIdempotent(ExtName(p));
  }

  /** Single-page-application fallback: whatever was asked for, every
      missing file is answered with the same index-document response. */
  lemma MissingFilesLookAlike(p: string, q: string, fs: string -> ReadOutcome)
    requires fs(RequestPath(p)) == Failed(NoSuchFile) && fs(RequestPath(q)) == Failed(NoSuchFile)
    ensures Handle(p, fs) == Handle(q, fs)
    ensures Handle(p, fs).status == 200
  {
  }
}
