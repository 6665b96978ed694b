/**
 * The Swift `String` helpers the file middleware relies on, stated by their
 * evident meaning over `seq<char>`: prefix and suffix tests, `finished(with:)`,
 * substring containment, `split(separator:)` (which drops empty pieces), and
 * `Int(String)` for the 64-bit `Int` of the platform, together with the
 * decimal rendering used by string interpolation.
 */
module Strings {

  datatype Option<T> = None | Some(value: T)

  /** Bounds of Swift's 64-bit `Int`. */
  const IntMin: int := -0x8000_0000_0000_0000
  const IntMax: int := 0x7fff_ffff_ffff_ffff

  predicate InIntRange(n: int) {
    IntMin <= n <= IntMax
  }

  predicate StartsWith(s: string, prefix: string) {
    |prefix| <= |s| && s[..|prefix|] == prefix
  }

  predicate EndsWith(s: string, suffix: string) {
    |suffix| <= |s| && s[|s| - |suffix|..] == suffix
  }

  /** `s.finished(with: suffix)`: `s` itself when it already ends with `suffix`, otherwise `s + suffix`. */
  function Finished(s: string, suffix: string): (r: string)
    ensures EndsWith(r, suffix)
    ensures StartsWith(r, s) && |r| <= |s| + |suffix|
    ensures r == s <==> EndsWith(s, suffix)
  {
    if EndsWith(s, suffix) then s
    else
      assert (s + suffix)[..|s|] == s;
      assert (s + suffix)[|s|..] == suffix;
      s + suffix
  }

  /** `s.contains(t)`: `t` occurs somewhere in `s` as a contiguous piece. */
  predicate Contains(s: string, t: string)
    decreases |s|
  {
    StartsWith(s, t) || (s != [] && Contains(s[1..], t))
  }

  /** `Contains` holds exactly when `t` starts at some offset of `s`. */
  lemma {:induction false} ContainsAt(s: string, t: string)
    ensures Contains(s, t) <==> exists i :: 0 <= i <= |s| && StartsWith(s[i..], t)
  {
    if Contains(s, t) {
      if StartsWith(s, t) {
        assert s[0..] == s;
      } else {
        ContainsAt(s[1..], t);
        var j :| 0 <= j <= |s[1..]| && StartsWith(s[1..][j..], t);
        assert s[1..][j..] == s[j + 1..];
      }
    }
    if exists i :: 0 <= i <= |s| && StartsWith(s[i..], t) {
      var i :| 0 <= i <= |s| && StartsWith(s[i..], t);
      if i == 0 {
        assert s[0..] == s;
      } else {
        assert s[1..][i - 1..] == s[i..];
        ContainsAt(s[1..], t);
      }
    }
  }

  /**
   * Gluing a string `b` after a string `a` that ends with "/" creates no new
   * occurrence of "../": any occurrence lies wholly inside `a` or inside `b`.
   */
  lemma {:induction false} ContainsDotDotSlashAfterSlash(a: string, b: string)
    requires EndsWith(a, "/")
    ensures Contains(a + b, "../") ==> Contains(a, "../") || Contains(b, "../")
    decreases |a|
  {
    if Contains(a + b, "../") {
      if |a| == 1 {
        assert (a + b)[0] == '/';
        assert (a + b)[1..] == b;
      } else {
        if |a| == 2 {
          assert (a + b)[1] == '/';
        } else {
          assert a[..3] == (a + b)[..3];
        }
        assert (a + b)[1..] == a[1..] + b;
        assert a[1..][|a[1..]| - 1..] == a[|a| - 1..];
        ContainsDotDotSlashAfterSlash(a[1..], b);
      }
    }
  }

  // ---------------------------------------------------------------------------
  // split(separator:) with Swift's default of omitting empty pieces

  function Join(pieces: seq<string>, sep: char): string
    decreases |pieces|
  {
    if |pieces| == 0 then []
    else if |pieces| == 1 then pieces[0]
    else pieces[0] + [sep] + Join(pieces[1..], sep)
  }

  /** Every piece is non-empty and free of the separator. */
  predicate ProperPieces(pieces: seq<string>, sep: char) {
    forall i :: 0 <= i < |pieces| ==> pieces[i] != [] && sep !in pieces[i]
  }

  /** The piece under construction, emitted only when it is non-empty. */
  function Flush(cur: string): seq<string> {
    if cur == [] then [] else [cur]
  }

  /** Splits `s`, with `cur` the separator-free text read since the last separator. */
  function SplitFrom(s: string, sep: char, cur: string): (pieces: seq<string>)
    requires sep !in cur
    ensures ProperPieces(pieces, sep)
    decreases |s|
  {
    if s == [] then Flush(cur)
    else if s[0] == sep then Flush(cur) + SplitFrom(s[1..], sep, [])
    else SplitFrom(s[1..], sep, cur + [s[0]])
  }

  /** `s.split(separator: sep)`: the maximal separator-free runs of `s`, empty runs dropped. */
  function Split(s: string, sep: char): (pieces: seq<string>)
    ensures ProperPieces(pieces, sep)
  {
    SplitFrom(s, sep, [])
  }

  /** Removes every occurrence of `c`. */
  function Without(s: string, c: char): string
    decreases |s|
  {
    if s == [] then [] else (if s[0] == c then [] else [s[0]]) + Without(s[1..], c)
  }

  function Concat(pieces: seq<string>): string
    decreases |pieces|
  {
    if pieces == [] then [] else pieces[0] + Concat(pieces[1..])
  }

  lemma {:induction false} ConcatAppend(a: seq<string>, b: seq<string>)
    ensures Concat(a + b) == Concat(a) + Concat(b)
    decreases |a|
  {
    if a != [] {
      assert (a + b)[0] == a[0];
      assert (a + b)[1..] == a[1..] + b;
      ConcatAppend(a[1..], b);
    } else {
      assert a + b == b;
    }
  }

  lemma {:induction false} SplitFromKeepsText(s: string, sep: char, cur: string)
    requires sep !in cur
    ensures Concat(SplitFrom(s, sep, cur)) == cur + Without(s, sep)
    decreases |s|
  {
    if s == [] {
    } else if s[0] == sep {
      SplitFromKeepsText(s[1..], sep, []);
      ConcatAppend(Flush(cur), SplitFrom(s[1..], sep, []));
    } else {
      SplitFromKeepsText(s[1..], sep, cur + [s[0]]);
    }
  }

  /** Splitting loses no character but the separators and keeps the order of the rest. */
  lemma SplitKeepsText(s: string, sep: char)
    ensures Concat(Split(s, sep)) == Without(s, sep)
  {
    SplitFromKeepsText(s, sep, []);
  }

  lemma {:induction false} SplitFromPlain(w: string, rest: string, sep: char, cur: string)
    requires sep !in w && sep !in cur
    ensures SplitFrom(w + rest, sep, cur) == SplitFrom(rest, sep, cur + w)
    decreases |w|
  {
    if w != [] {
      assert (w + rest)[0] == w[0];
      assert (w + rest)[1..] == w[1..] + rest;
      assert cur + [w[0]] + w[1..] == cur + w;
      SplitFromPlain(w[1..], rest, sep, cur + [w[0]]);
    } else {
      assert w + rest == rest;
      assert cur + w == cur;
    }
  }

  /** Splitting what `Join` glued together gives the pieces back. */
  lemma {:induction false} SplitJoin(pieces: seq<string>, sep: char)
    requires ProperPieces(pieces, sep)
    ensures Split(Join(pieces, sep), sep) == pieces
    decreases |pieces|
  {
    if |pieces| == 1 {
      SplitFromPlain(pieces[0], [], sep, []);
      assert pieces[0] + [] == pieces[0];
      assert [] + pieces[0] == pieces[0];
    } else if |pieces| > 1 {
      var p, j := pieces[0], Join(pieces[1..], sep);
      assert Join(pieces, sep) == p + ([sep] + j);
      SplitFromPlain(p, [sep] + j, sep, []);
      assert [] + p == p;
      assert Flush(p) == [p];
      assert ([sep] + j)[0] == sep;
      assert ([sep] + j)[1..] == j;
      assert SplitFrom([sep] + j, sep, p) == Flush(p) + SplitFrom(j, sep, []);
      SplitJoin(pieces[1..], sep);
      assert pieces == [p] + pieces[1..];
    }
  }

  lemma {:induction false} SplitFromTrailing(s: string, sep: char, cur: string)
    requires sep !in cur
    ensures SplitFrom(s + [sep], sep, cur) == SplitFrom(s, sep, cur)
    decreases |s|
  {
    if s == [] {
      assert [] + [sep] == [sep];
    } else {
      assert (s + [sep])[0] == s[0];
      assert (s + [sep])[1..] == s[1..] + [sep];
      if s[0] == sep {
        SplitFromTrailing(s[1..], sep, []);
      } else {
        SplitFromTrailing(s[1..], sep, cur + [s[0]]);
      }
    }
  }

  /** A separator at the end adds no piece. */
  lemma SplitTrailingSeparator(s: string, sep: char)
    ensures Split(s + [sep], sep) == Split(s, sep)
  {
    SplitFromTrailing(s, sep, []);
  }

  /** A separator at the start adds no piece. */
  lemma SplitLeadingSeparator(s: string, sep: char)
    ensures Split([sep] + s, sep) == Split(s, sep)
  {
  }

  // ---------------------------------------------------------------------------
  // Decimal numbers: Int(String) and "\(n)"

  predicate IsDigit(c: char) {
    '0' <= c <= '9'
  }

  predicate AllDigits(s: string) {
    forall i :: 0 <= i < |s| ==> IsDigit(s[i])
  }

  function DigitChar(d: nat): (c: char)
    requires d < 10
    ensures IsDigit(c)
  {
    ('0' as int + d) as char
  }

  function DigitValue(c: char): nat
    requires IsDigit(c)
  {
    c as int - '0' as int
  }

  /** Decimal rendering of a natural number, as `"\(n)"` produces it. */
  function ShowNat(n: nat): (s: string)
    ensures s != [] && AllDigits(s)
    ensures s[0] != '0' || n == 0
    ensures n == 0 ==> s == "0"
    decreases n
  {
    if n < 10 then [DigitChar(n)] else ShowNat(n / 10) + [DigitChar(n % 10)]
  }

  function DigitsValue(s: string): nat
    requires AllDigits(s)
    decreases |s|
  {
    if s == [] then 0 else DigitsValue(s[..|s| - 1]) * 10 + DigitValue(s[|s| - 1])
  }

  /** A non-empty run of decimal digits, of any size. */
  function ParseNat(s: string): Option<nat> {
    if s != [] && AllDigits(s) then Some(DigitsValue(s)) else None
  }

  /** Reading back a rendered number gives the number. */
  lemma {:induction false} ParseNatShowNat(n: nat)
    ensures ParseNat(ShowNat(n)) == Some(n)
    decreases n
  {
    var s := ShowNat(n);
    assert DigitValue(DigitChar(n % 10)) == n % 10;
    if n >= 10 {
      ParseNatShowNat(n / 10);
      assert s[..|s| - 1] == ShowNat(n / 10);
      assert DigitsValue(ShowNat(n / 10)) == n / 10;
      assert s[|s| - 1] == DigitChar(n % 10);
      assert DigitsValue(s) == (n / 10) * 10 + n % 10;
    } else {
      assert s == [DigitChar(n)] && s[..|s| - 1] == [];
      assert DigitValue(DigitChar(n)) == n;
      assert DigitsValue(s) == n;
    }
  }

  /**
   * `Int(s)`: an optional `+` or `-` sign followed by a non-empty run of
   * digits, whose value must fit the 64-bit `Int`; anything else is `nil`.
   */
  function ParseInt(s: string): (r: Option<int>)
    ensures r.Some? ==> InIntRange(r.value)
    ensures r.Some? && r.value < 0 ==> StartsWith(s, "-")
    ensures r.Some? ==> s != []
    ensures r.Some? ==>
              var k := if s[0] == '+' || s[0] == '-' then 1 else 0;
              ParseNat(s[k..]) == Some(if r.value < 0 then -r.value else r.value)
  {
    var signed := s != [] && (s[0] == '+' || s[0] == '-');
    var k := if signed then 1 else 0;
    match ParseNat(s[k..])
    case None => None
    case Some(n) =>
      var v: int := if signed && s[0] == '-' then -(n as int) else n;
      if InIntRange(v) then Some(v) else None
  }

  /**
   * Every run of digits whose value fits `Int` is read, leading zeros and
   * all, with or without a `+` in front.
   */
  lemma ParseIntDigits(s: string)
    requires ParseNat(s).Some? && ParseNat(s).value <= IntMax
    ensures ParseInt(s) == Some(ParseNat(s).value as int)
    ensures ParseInt("+" + s) == Some(ParseNat(s).value as int)
  {
    assert s[0] != '+' && s[0] != '-' by { assert IsDigit(s[0]); }
    assert ("+" + s)[0] == '+' && ("+" + s)[1..] == s;
  }

  /** A `-` followed by a run of digits is read when the negated value fits `Int`. */
  lemma ParseIntNegativeDigits(s: string)
    requires ParseNat(s).Some? && ParseNat(s).value <= -IntMin
    ensures ParseInt("-" + s) == Some(-(ParseNat(s).value as int))
  {
    assert ("-" + s)[0] == '-' && ("-" + s)[1..] == s;
  }

  /** Rendering a number that fits `Int` and reading it back with `Int(_)` gives the number. */
  lemma ParseIntShowNat(n: nat)
    requires n <= IntMax
    ensures ParseInt(ShowNat(n)) == Some(n)
  {
    ParseNatShowNat(n);
    assert IsDigit(ShowNat(n)[0]);
    assert ShowNat(n)[0..] == ShowNat(n);
  }

  /** A leading `+` is accepted: `Int("+n")` is `n`. */
  lemma ParseIntPlus(n: nat)
    requires n <= IntMax
    ensures ParseInt("+" + ShowNat(n)) == Some(n)
  {
    ParseNatShowNat(n);
    assert ("+" + ShowNat(n))[1..] == ShowNat(n);
  }

  /** A leading `-` negates: `Int("-n")` is `-n`, down to `Int.min`. */
  lemma ParseIntMinus(n: nat)
    requires n <= -IntMin
    ensures ParseInt("-" + ShowNat(n)) == Some(-(n as int))
  {
    ParseNatShowNat(n);
    assert ("-" + ShowNat(n))[1..] == ShowNat(n);
  }
}
