/**
 * The static-file middleware: it answers single-range `Range: bytes=S-E`
 * requests straight from a file under the public directory, hands every other
 * request to the next responder (the router), and when the router reports a
 * missing route it falls back to serving the file at the request path.
 *
 * The file system is a map from path to bytes, and the next responder is
 * the result it would give for the request. The file fallback, which
 * happens in a response initialiser outside this model, is the outcome
 * `FileFallback` carrying the arguments that initialiser receives.
 */
module FileMiddleware {
  import opened Strings

  newtype byte = b: int | 0 <= b < 256

  type Headers = map<string, string>
  type FileSystem = map<string, seq<byte>>

  datatype Request = Request(path: string, headers: Headers)
  datatype Response = Response(status: int, headers: Headers, body: seq<byte>)

  /** What the next responder does with the request. */
  datatype NextResult =
    | Handled(response: Response)
    | MissingRoute
    | OtherError(error: string)

  /** Why the request would crash the process instead of being answered. */
  datatype Trap = ArithmeticOverflow | SliceOutOfBounds

  /** Everything `respond(to:chainingTo:)` can end in. */
  datatype Outcome =
    | Partial(response: Response)
    | Forbidden
    | FromNext(response: Response)
    | NextFailed(error: string)
    | FileFallback(filePath: string, ifNoneMatch: Option<string>, chunkSize: int)
    | Crash(trap: Trap)

  /**
   * How a range whose end lies past the file is handled. `Unchecked` is the
   * code as written (the length guard is commented out, so the slice reads
   * past the data and traps); `FallThrough` is the evidently intended
   * behaviour: such a range is not served and the request goes on to `next`.
   */
  datatype BoundsPolicy = Unchecked | FallThrough

  const DefaultChunkSize: int := 32768
  const PartialContent: int := 206

  function Header(headers: Headers, key: string): Option<string> {
    if key in headers then Some(headers[key]) else None
  }

  // ---------------------------------------------------------------------------
  // Construction

  datatype Config = Config(publicDir: string, chunkSize: int)

  /** `init(publicDir:chunkSize:)`: the directory is made to end in "/"; the chunk size defaults to 32768. */
  function Init(publicDir: string, chunkSize: Option<int>): (c: Config)
    ensures EndsWith(c.publicDir, "/")
    ensures StartsWith(c.publicDir, publicDir) && |c.publicDir| <= |publicDir| + 1
    ensures c.publicDir == publicDir <==> EndsWith(publicDir, "/")
    ensures chunkSize.Some? ==> c.chunkSize == chunkSize.value
    ensures chunkSize.None? ==> c.chunkSize == DefaultChunkSize
  {
    Config(Finished(publicDir, "/"), match chunkSize case Some(n) => n case None => DefaultChunkSize)
  }

  // ---------------------------------------------------------------------------
  // The Range header

  /** The inclusive byte offsets of a `bytes=start-end` request. */
  datatype ByteRange = ByteRange(start: nat, end: nat)

  /** A piece without a minus sign never reads as a negative `Int`. */
  lemma ParseIntUnsigned(s: string)
    requires '-' !in s
    ensures ParseInt(s).Some? ==> ParseInt(s).value >= 0
  {
  }

  /**
   * The `Range` header is acted on only when it starts with `bytes=` and the
   * rest, split on `-` with empty pieces dropped, is exactly two pieces that
   * both read as an `Int`. Neither piece can hold a `-`, so both are
   * non-negative.
   */
  function ParseRange(header: string): (r: Option<ByteRange>)
    ensures r.Some? ==> StartsWith(header, "bytes=") && |Split(header[6..], '-')| == 2
    ensures r.Some? ==>
              var pieces := Split(header[6..], '-');
              ParseInt(pieces[0]) == Some(r.value.start as int) && ParseInt(pieces[1]) == Some(r.value.end as int)
    ensures (StartsWith(header, "bytes=") && |Split(header[6..], '-')| == 2 &&
             ParseInt(Split(header[6..], '-')[0]).Some? && ParseInt(Split(header[6..], '-')[1]).Some?) ==> r.Some?
    ensures r.Some? ==> r.value.start <= IntMax && r.value.end <= IntMax
  {
    if !StartsWith(header, "bytes=") then None
    else
      var pieces := Split(header[6..], '-');
      if |pieces| != 2 then None
      else
        ParseIntUnsigned(pieces[0]);
        ParseIntUnsigned(pieces[1]);
        match (ParseInt(pieces[0]), ParseInt(pieces[1]))
        case (Some(s), Some(e)) => Some(ByteRange(s, e))
        case _ => None
  }

  // ---------------------------------------------------------------------------
  // Path resolution, shared by the range branch and the fallback branch

  datatype Resolution = Traversal | Resolved(filePath: string)

  /** The request path with one leading "/" removed, if it has one. */
  function Relative(path: string): (rel: string)
    ensures StartsWith(path, "/") ==> "/" + rel == path
    ensures !StartsWith(path, "/") ==> rel == path
  {
    if StartsWith(path, "/") then
      assert path == [path[0]] + path[1..];
      path[1..]
    else path
  }

  /**
   * A path that contains "../" is refused; any other path has one leading
   * "/" removed and is appended to the public directory.
   */
  function ResolvePath(publicDir: string, path: string): (r: Resolution)
    ensures r.Traversal? <==> Contains(path, "../")
    ensures r.Resolved? ==> StartsWith(r.filePath, publicDir)
    ensures r.Resolved? ==> r.filePath[|publicDir|..] == Relative(path)
  {
    if Contains(path, "../") then Traversal
    else
      var fp := publicDir + Relative(path);
      assert fp[..|publicDir|] == publicDir && fp[|publicDir|..] == Relative(path);
      Resolved(fp)
  }

  // ---------------------------------------------------------------------------
  // The partial-content response

  /** The reading side of `Content-Range: bytes start-end/total`. */
  datatype ContentRange = ContentRange(first: nat, last: nat, total: nat)

  function ParseContentRange(value: string): Option<ContentRange> {
    if !StartsWith(value, "bytes ") then None
    else
      var parts := Split(value[6..], '/');
      if |parts| != 2 then None
      else
        var ends := Split(parts[0], '-');
        if |ends| != 2 then None
        else match (ParseNat(ends[0]), ParseNat(ends[1]), ParseNat(parts[1]))
          case (Some(f), Some(l), Some(t)) => Some(ContentRange(f, l, t))
          case _ => None
  }

  function FormatContentRange(first: nat, last: nat, total: nat): string {
    "bytes " + ShowNat(first) + "-" + ShowNat(last) + "/" + ShowNat(total)
  }

  lemma DigitsAvoid(s: string, c: char)
    requires AllDigits(s) && !IsDigit(c)
    ensures c !in s
  {
  }

  /** The `Content-Range` value the middleware writes reads back as the three numbers. */
  lemma ContentRangeRoundTrip(first: nat, last: nat, total: nat)
    ensures ParseContentRange(FormatContentRange(first, last, total)) == Some(ContentRange(first, last, total))
  {
    var f, l, t := ShowNat(first), ShowNat(last), ShowNat(total);
    DigitsAvoid(f, '-'); DigitsAvoid(l, '-');
    DigitsAvoid(f, '/'); DigitsAvoid(l, '/'); DigitsAvoid(t, '/');
    var v := FormatContentRange(first, last, total);
    var fl := f + "-" + l;
    assert fl == Join([f, l], '-');
    assert '/' !in fl;
    assert v[6..] == Join([fl, t], '/');
    SplitJoin([fl, t], '/');
    SplitJoin([f, l], '-');
    ParseNatShowNat(first);
    ParseNatShowNat(last);
    ParseNatShowNat(total);
  }

  /**
   * The 206 answer for the bytes `start..end` (inclusive) of `data`: the body
   * is exactly those bytes, `Content-Length` is their number, `Content-Range`
   * is `bytes start-end/total` with the whole file's length as total, and
   * `Accept-Ranges` is `bytes`.
   */
  function PartialResponse(data: seq<byte>, start: nat, end: nat): (resp: Response)
    requires start <= end < |data|
    ensures resp.status == PartialContent
    ensures |resp.body| == end - start + 1
    ensures forall i :: 0 <= i < |resp.body| ==> resp.body[i] == data[start + i]
    ensures resp.headers.Keys == {"Content-Length", "Content-Range", "Accept-Ranges"}
    ensures resp.headers["Content-Length"] == ShowNat(|resp.body|)
    ensures resp.headers["Content-Range"] == "bytes " + ShowNat(start) + "-" + ShowNat(end) + "/" + ShowNat(|data|)
    ensures ParseNat(resp.headers["Content-Length"]) == Some(|resp.body|)
    ensures ParseContentRange(resp.headers["Content-Range"]) == Some(ContentRange(start, end, |data|))
    ensures resp.headers["Accept-Ranges"] == "bytes"
  {
    var length := end - start + 1;
    ParseNatShowNat(length);
    ContentRangeRoundTrip(start, end, |data|);
    Response(
      PartialContent,
      map[
        "Content-Length" := ShowNat(length),
        "Content-Range" := FormatContentRange(start, end, |data|),
        "Accept-Ranges" := "bytes"
      ],
      data[start..start + length])
  }

  // ---------------------------------------------------------------------------
  // The request pipeline

  /** The range stage either answers the request itself or passes it on. */
  datatype RangeStep = Answered(outcome: Outcome) | PassOn

  /**
   * Serving `rg` from a loaded file: the length is `end - start + 1`, a
   * non-positive length passes the request on, and a positive one is served.
   * Under `Unchecked` the length is computed in 64-bit arithmetic (which
   * traps when it overflows) and the slice is taken without looking at the
   * file's size (which traps when it runs past the end).
   */
  function SliceRange(data: seq<byte>, rg: ByteRange, policy: BoundsPolicy): (step: RangeStep)
    requires rg.start <= IntMax && rg.end <= IntMax
    ensures step.Answered? && step.outcome.Partial? ==> rg.start <= rg.end < |data|
    ensures step.Answered? ==> step.outcome.Partial? || step.outcome.Crash?
    ensures step.Answered? && step.outcome.Crash? ==> policy == Unchecked
    ensures rg.end < rg.start ==> step == PassOn
    ensures rg.start <= rg.end < |data| <= IntMax ==> step == Answered(Partial(PartialResponse(data, rg.start, rg.end)))
  {
    match policy
    case Unchecked =>
      var length := rg.end - rg.start + 1;
      if !InIntRange(length) then Answered(Crash(ArithmeticOverflow))
      else if length <= 0 then PassOn
      else if rg.start + length > |data| then Answered(Crash(SliceOutOfBounds))
      else Answered(Partial(PartialResponse(data, rg.start, rg.end)))
    case FallThrough =>
      if rg.start <= rg.end < |data| then Answered(Partial(PartialResponse(data, rg.start, rg.end)))
      else PassOn
  }

  /** The range the request's `Range` header asks for, if it has one that is acted on. */
  function RequestedRange(req: Request): Option<ByteRange> {
    match Header(req.headers, "Range")
    case None => None
    case Some(h) => ParseRange(h)
  }

  /**
   * The range branch: without a usable `Range` header the request is passed
   * on; with one, a traversing path is refused before any file is looked at,
   * a missing file passes the request on, and an existing one is sliced.
   */
  function ServeRange(cfg: Config, req: Request, fs: FileSystem, policy: BoundsPolicy): (step: RangeStep)
    ensures RequestedRange(req).None? ==> step == PassOn
    ensures step == Answered(Forbidden) <==> RequestedRange(req).Some? && Contains(req.path, "../")
    ensures RequestedRange(req).Some? && !Contains(req.path, "../") ==>
              var fp := ResolvePath(cfg.publicDir, req.path).filePath;
              step == if fp in fs then SliceRange(fs[fp], RequestedRange(req).value, policy) else PassOn
  {
    match RequestedRange(req)
    case None => PassOn
    case Some(rg) =>
      match ResolvePath(cfg.publicDir, req.path)
      case Traversal => Answered(Forbidden)
      case Resolved(fp) => if fp in fs then SliceRange(fs[fp], rg, policy) else PassOn
  }

  /**
   * After `next`: its response is returned as it is, an error other than a
   * missing route propagates as it is, and a missing route leads to the file
   * at the resolved path, with the raw `If-None-Match` value and the chunk size.
   */
  function AfterNext(cfg: Config, req: Request, next: NextResult): (o: Outcome)
    ensures next.Handled? ==> o == FromNext(next.response)
    ensures next.OtherError? ==> o == NextFailed(next.error)
    ensures o.Forbidden? <==> next.MissingRoute? && Contains(req.path, "../")
    ensures next.MissingRoute? && !Contains(req.path, "../") ==>
              o == FileFallback(cfg.publicDir + Relative(req.path), Header(req.headers, "If-None-Match"), cfg.chunkSize)
  {
    match next
    case Handled(resp) => FromNext(resp)
    case OtherError(e) => NextFailed(e)
    case MissingRoute =>
      match ResolvePath(cfg.publicDir, req.path)
      case Traversal => Forbidden
      case Resolved(fp) => FileFallback(fp, Header(req.headers, "If-None-Match"), cfg.chunkSize)
  }

  /** `respond(to:chainingTo:)`: the range branch first, then `next`, then the missing-route fallback. */
  function Respond(cfg: Config, req: Request, fs: FileSystem, next: NextResult, policy: BoundsPolicy): (o: Outcome)
    ensures o.Crash? ==> policy == Unchecked
    ensures o.Partial? ==> o.response.status == PartialContent
  {
    match ServeRange(cfg, req, fs, policy)
    case Answered(o) => o
    case PassOn => AfterNext(cfg, req, next)
  }
}
