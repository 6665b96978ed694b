/**
 * What the file middleware promises, stated over `Respond` for every
 * configuration, request, file system, result of the next responder and
 * bounds policy: the order in which it consults the range branch, the router
 * and the file system; what a 206 answer holds; that traversal is refused on
 * both branches; and how the code as written differs from the corrected one.
 */
module FileMiddlewareProperties {
  import opened Strings
  import opened FileMiddleware

  // ---------------------------------------------------------------------------
  // Construction

  /** Constructing again from an already normalised directory changes nothing. */
  lemma InitIdempotent(publicDir: string, chunkSize: Option<int>)
    ensures Init(Init(publicDir, chunkSize).publicDir, chunkSize) == Init(publicDir, chunkSize)
  {
  }

  // ---------------------------------------------------------------------------
  // The Range header

  lemma {:induction false} RangeRest(a: string)
    ensures ("bytes=" + a)[6..] == a
    ensures StartsWith("bytes=" + a, "bytes=")
  {
  }

  /** `bytes=a-b` with two non-empty dash-free pieces is acted on exactly when both pieces read as an `Int`. */
  lemma ParseRangeTwoPieces(a: string, b: string)
    requires a != [] && b != [] && '-' !in a && '-' !in b
    ensures var r := ParseRange("bytes=" + a + "-" + b);
      (r.Some? <==> ParseInt(a).Some? && ParseInt(b).Some?) &&
      (r.Some? ==> r.value.start == ParseInt(a).value && r.value.end == ParseInt(b).value)
  {
    var h := "bytes=" + a + "-" + b;
    assert h == "bytes=" + (a + "-" + b);
    RangeRest(a + "-" + b);
    assert a + "-" + b == Join([a, b], '-');
    SplitJoin([a, b], '-');
  }

  /** A range written out in decimal is read back as the same two offsets. */
  lemma ParseRangeShown(start: nat, end: nat)
    requires start <= IntMax && end <= IntMax
    ensures ParseRange("bytes=" + ShowNat(start) + "-" + ShowNat(end)) == Some(ByteRange(start, end))
  {
    DigitsAvoid(ShowNat(start), '-');
    DigitsAvoid(ShowNat(end), '-');
    ParseIntShowNat(start);
    ParseIntShowNat(end);
    ParseRangeTwoPieces(ShowNat(start), ShowNat(end));
  }

  /** The open-ended form `bytes=a-` is ignored. */
  lemma ParseRangeIgnoresOpenEnded(a: string)
    requires a != [] && '-' !in a
    ensures ParseRange("bytes=" + a + "-") == None
  {
    assert "bytes=" + a + "-" == "bytes=" + (a + "-");
    RangeRest(a + "-");
    SplitTrailingSeparator(a, '-');
    assert a == Join([a], '-');
    SplitJoin([a], '-');
  }

  /** The suffix form `bytes=-a` is ignored. */
  lemma ParseRangeIgnoresSuffix(a: string)
    requires a != [] && '-' !in a
    ensures ParseRange("bytes=-" + a) == None
  {
    assert "bytes=-" + a == "bytes=" + ("-" + a);
    RangeRest("-" + a);
    SplitLeadingSeparator(a, '-');
    assert a == Join([a], '-');
    SplitJoin([a], '-');
  }

  /** A header with three dash-separated pieces, `bytes=a-b-c`, is ignored. */
  lemma ParseRangeIgnoresThreePieces(a: string, b: string, c: string)
    requires a != [] && b != [] && c != [] && '-' !in a && '-' !in b && '-' !in c
    ensures ParseRange("bytes=" + a + "-" + b + "-" + c) == None
  {
    var rest := a + "-" + b + "-" + c;
    assert "bytes=" + a + "-" + b + "-" + c == "bytes=" + rest;
    RangeRest(rest);
    assert Join([b, c], '-') == b + "-" + c;
    assert rest == a + "-" + (b + "-" + c);
    assert rest == Join([a, b, c], '-');
    SplitJoin([a, b, c], '-');
  }

  /**
   * Because empty pieces are dropped, a doubled dash reads like a single one:
   * `bytes=a--b` is acted on exactly as `bytes=a-b` is.
   */
  lemma ParseRangeDoubledDash(a: string, b: string)
    requires a != [] && b != [] && '-' !in a && '-' !in b
    ensures ParseRange("bytes=" + a + "--" + b) == ParseRange("bytes=" + a + "-" + b)
  {
    assert "bytes=" + a + "--" + b == "bytes=" + (a + ("--" + b));
    assert "bytes=" + a + "-" + b == "bytes=" + (a + ("-" + b));
    RangeRest(a + ("--" + b));
    RangeRest(a + ("-" + b));
    SplitFromPlain(a, "--" + b, '-', []);
    SplitFromPlain(a, "-" + b, '-', []);
    assert ("--" + b)[0] == '-' && ("--" + b)[1..] == "-" + b;
    assert ("-" + b)[0] == '-' && ("-" + b)[1..] == b;
  }

  // ---------------------------------------------------------------------------
  // Path resolution

  /**
   * The traversal test looks for "../" only: a path ending in "/.." is not
   * refused and resolves to the public directory followed by "..".
   */
  lemma ResolveTrailingDotDot(publicDir: string)
    ensures ResolvePath(publicDir, "/..") == Resolved(publicDir + "..")
  {
    assert !Contains("", "../") && !Contains(".", "../") && !Contains("..", "../");
    assert "/.."[0] != "../"[0];
    assert !Contains("/..", "../");
    assert "/.."[1..] == "..";
  }

  /**
   * Resolution never introduces a "../": the resolved path contains one only
   * if the public directory itself does.
   */
  lemma ResolveAddsNoTraversal(publicDir: string, path: string)
    requires EndsWith(publicDir, "/")
    ensures var r := ResolvePath(publicDir, path);
      r.Resolved? && Contains(r.filePath, "../") ==> Contains(publicDir, "../")
  {
    var r := ResolvePath(publicDir, path);
    if r.Resolved? {
      var rel := Relative(path);
      assert r.filePath == publicDir + rel by {
        assert r.filePath == r.filePath[..|publicDir|] + r.filePath[|publicDir|..];
      }
      ContainsDotDotSlashAfterSlash(publicDir, rel);
    }
  }

  // ---------------------------------------------------------------------------
  // The request pipeline

  /**
   * A 206 answer comes only from a well-formed range on an existing file
   * within its bounds, and carries exactly those bytes with matching
   * `Content-Length`, `Content-Range` (total = the file's length) and
   * `Accept-Ranges` headers.
   */
  lemma PartialContentShape(cfg: Config, req: Request, fs: FileSystem, next: NextResult, policy: BoundsPolicy)
    requires Respond(cfg, req, fs, next, policy).Partial?
    ensures RequestedRange(req).Some?
    ensures var resp := Respond(cfg, req, fs, next, policy).response;
      var rg := RequestedRange(req).value;
      var res := ResolvePath(cfg.publicDir, req.path);
      res.Resolved? && res.filePath in fs &&
      rg.start <= rg.end < |fs[res.filePath]| &&
      resp == PartialResponse(fs[res.filePath], rg.start, rg.end) &&
      resp.status == PartialContent &&
      resp.body == fs[res.filePath][rg.start..rg.end + 1] &&
      ParseNat(resp.headers["Content-Length"]) == Some(rg.end - rg.start + 1) &&
      ParseContentRange(resp.headers["Content-Range"]) == Some(ContentRange(rg.start, rg.end, |fs[res.filePath]|)) &&
      resp.headers["Accept-Ranges"] == "bytes"
  {
  }

  /** Conversely, a well-formed range within an existing file is always answered with 206. */
  lemma WellFormedRangeIsServed(cfg: Config, req: Request, fs: FileSystem, next: NextResult, policy: BoundsPolicy)
    requires RequestedRange(req).Some? && !Contains(req.path, "../")
    requires var rg := RequestedRange(req).value;
      var fp := ResolvePath(cfg.publicDir, req.path).filePath;
      fp in fs && rg.start <= rg.end < |fs[fp]| <= IntMax
    ensures var rg := RequestedRange(req).value;
      var fp := ResolvePath(cfg.publicDir, req.path).filePath;
      Respond(cfg, req, fs, next, policy) == Partial(PartialResponse(fs[fp], rg.start, rg.end))
  {
  }

  /** A 206 answer never depends on the next responder: the router is not consulted. */
  lemma PartialNeverConsultsNext(cfg: Config, req: Request, fs: FileSystem, next: NextResult, policy: BoundsPolicy, other: NextResult)
    requires Respond(cfg, req, fs, next, policy).Partial?
    ensures Respond(cfg, req, fs, other, policy) == Respond(cfg, req, fs, next, policy)
  {
  }

  /** Without a usable `Range` header the request goes straight to `next`. */
  lemma MalformedRangeGoesToNext(cfg: Config, req: Request, fs: FileSystem, next: NextResult, policy: BoundsPolicy)
    requires RequestedRange(req).None?
    ensures Respond(cfg, req, fs, next, policy) == AfterNext(cfg, req, next)
  {
  }

  /** A well-formed range on a file that does not exist goes to `next`. */
  lemma MissingFileGoesToNext(cfg: Config, req: Request, fs: FileSystem, next: NextResult, policy: BoundsPolicy)
    requires RequestedRange(req).Some? && !Contains(req.path, "../")
    requires ResolvePath(cfg.publicDir, req.path).filePath !in fs
    ensures Respond(cfg, req, fs, next, policy) == AfterNext(cfg, req, next)
  {
  }

  /** A range whose computed length `end - start + 1` is not positive goes to `next`. */
  lemma EmptyRangeGoesToNext(cfg: Config, req: Request, fs: FileSystem, next: NextResult, policy: BoundsPolicy)
    requires RequestedRange(req).Some? && !Contains(req.path, "../")
    requires var rg := RequestedRange(req).value; rg.end - rg.start + 1 <= 0
    ensures Respond(cfg, req, fs, next, policy) == AfterNext(cfg, req, next)
  {
  }

  /**
   * The next responder's answer and its errors other than a missing route
   * come back unchanged, and nothing but a missing route leads to the file
   * fallback, which gets the shared resolved path, the raw `If-None-Match`
   * value and the configured chunk size.
   */
  lemma RouterResultsPassThrough(cfg: Config, req: Request, fs: FileSystem, next: NextResult, policy: BoundsPolicy)
    ensures var o := Respond(cfg, req, fs, next, policy);
      (o.FromNext? ==> next == Handled(o.response)) &&
      (o.NextFailed? ==> next == OtherError(o.error)) &&
      (o.FileFallback? ==>
        next == MissingRoute &&
        ResolvePath(cfg.publicDir, req.path) == Resolved(o.filePath) &&
        o.ifNoneMatch == Header(req.headers, "If-None-Match") &&
        o.chunkSize == cfg.chunkSize)
  {
  }

  /**
   * The promise of the middleware: when the range branch passes the request
   * on and the router reports a missing route, a path without "../" is served
   * from the public directory.
   */
  lemma MissingRouteFallsBack(cfg: Config, req: Request, fs: FileSystem, policy: BoundsPolicy)
    requires RequestedRange(req).None? && !Contains(req.path, "../")
    ensures Respond(cfg, req, fs, MissingRoute, policy) ==
            FileFallback(cfg.publicDir + Relative(req.path), Header(req.headers, "If-None-Match"), cfg.chunkSize)
  {
  }

  /** 403 is only ever the answer to a path that contains "../". */
  lemma ForbiddenOnlyForTraversal(cfg: Config, req: Request, fs: FileSystem, next: NextResult, policy: BoundsPolicy)
    ensures Respond(cfg, req, fs, next, policy) == Forbidden ==> Contains(req.path, "../")
  {
  }

  /**
   * A path containing "../" is never served from the file system: it is
   * refused with 403 on the range branch and on the fallback branch, the
   * only other outcome being what the router itself did with it, and the
   * file system is never looked at.
   */
  lemma TraversalIsForbidden(cfg: Config, req: Request, fs: FileSystem, next: NextResult, policy: BoundsPolicy)
    requires Contains(req.path, "../")
    ensures var o := Respond(cfg, req, fs, next, policy);
      (o == Forbidden <==> RequestedRange(req).Some? || next == MissingRoute) &&
      (o != Forbidden ==> o == AfterNext(cfg, req, next) && (o.FromNext? || o.NextFailed?))
    ensures forall other: FileSystem :: Respond(cfg, req, other, next, policy) == Respond(cfg, req, fs, next, policy)
  {
  }

  // ---------------------------------------------------------------------------
  // The unchecked slice and the corrected bounds policy

  /** As written: a well-formed range ending at or past the end of the file crashes on the slice. */
  lemma UncheckedCrashesPastEnd(cfg: Config, req: Request, fs: FileSystem, next: NextResult)
    requires RequestedRange(req).Some? && !Contains(req.path, "../")
    requires var rg := RequestedRange(req).value;
      var fp := ResolvePath(cfg.publicDir, req.path).filePath;
      fp in fs && rg.start <= rg.end && |fs[fp]| <= rg.end && rg.end - rg.start < IntMax
    ensures Respond(cfg, req, fs, next, Unchecked) == Crash(SliceOutOfBounds)
  {
  }

  /**
   * As written: the range from 0 to `Int.max` (the header
   * `bytes=0-9223372036854775807`, see `ParseRangeShown`) on an existing
   * file overflows `end - start + 1`.
   */
  lemma UncheckedOverflows(cfg: Config, req: Request, fs: FileSystem, next: NextResult)
    requires RequestedRange(req).Some? && RequestedRange(req).value == ByteRange(0, IntMax)
    requires !Contains(req.path, "../") && ResolvePath(cfg.publicDir, req.path).filePath in fs
    ensures Respond(cfg, req, fs, next, Unchecked) == Crash(ArithmeticOverflow)
  {
  }

  /** Corrected: a range reaching past the end of the file is not served and goes to `next`. */
  lemma FallThroughPastEndGoesToNext(cfg: Config, req: Request, fs: FileSystem, next: NextResult)
    requires RequestedRange(req).Some? && !Contains(req.path, "../")
    requires var rg := RequestedRange(req).value;
      var fp := ResolvePath(cfg.publicDir, req.path).filePath;
      fp in fs && |fs[fp]| <= rg.end
    ensures Respond(cfg, req, fs, next, FallThrough) == AfterNext(cfg, req, next)
  {
  }

  /** The corrected policy differs from the code as written only where the latter crashes. */
  lemma PoliciesAgreeUnlessCrash(cfg: Config, req: Request, fs: FileSystem, next: NextResult)
    requires !Respond(cfg, req, fs, next, Unchecked).Crash?
    ensures Respond(cfg, req, fs, next, FallThrough) == Respond(cfg, req, fs, next, Unchecked)
  {
  }

  lemma ExampleRange()
    ensures ParseRange("bytes=5-20") == Some(ByteRange(5, 20))
  {
    assert ShowNat(5) == "5" && ShowNat(20) == "20";
    assert "bytes=5-20" == "bytes=" + ShowNat(5) + "-" + ShowNat(20);
    ParseRangeShown(5, 20);
  }

  /** A path without any dot cannot hold "../". */
  lemma {:induction false} NoDotNoTraversal(s: string)
    requires '.' !in s
    ensures !Contains(s, "../")
    decreases |s|
  {
    if s != [] {
      assert s[0] != '.';
      NoDotNoTraversal(s[1..]);
    }
  }

  lemma ExamplePath()
    ensures ResolvePath("Public/", "/movie") == Resolved("Public/movie")
  {
    NoDotNoTraversal("/movie");
  }

  /**
   * A ten-byte `Public/movie` requested as `/movie` with `Range: bytes=5-20`:
   * the code as written crashes, the corrected middleware hands the request
   * on and, on a missing route, falls back to the whole file.
   */
  lemma PastEndExample()
    ensures var cfg := Init("Public", None);
      var req := Request("/movie", map["Range" := "bytes=5-20"]);
      var fs: FileSystem := map["Public/movie" := [0, 1, 2, 3, 4, 5, 6, 7, 8, 9]];
      Respond(cfg, req, fs, MissingRoute, Unchecked) == Crash(SliceOutOfBounds) &&
      Respond(cfg, req, fs, MissingRoute, FallThrough) == FileFallback("Public/movie", None, DefaultChunkSize)
  {
    var cfg := Init("Public", None);
    var req := Request("/movie", map["Range" := "bytes=5-20"]);
    var fs: FileSystem := map["Public/movie" := [0, 1, 2, 3, 4, 5, 6, 7, 8, 9]];
    assert cfg.publicDir == "Public/" by {
      assert cfg.publicDir[..6] == "Public" && cfg.publicDir[6..] == "/";
      assert cfg.publicDir == cfg.publicDir[..6] + cfg.publicDir[6..];
    }
    ExampleRange();
    ExamplePath();
    assert RequestedRange(req).Some?;
    UncheckedCrashesPastEnd(cfg, req, fs, MissingRoute);
    FallThroughPastEndGoesToNext(cfg, req, fs, MissingRoute);
  }
}
