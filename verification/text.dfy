/**
 * The string handling the OBJ readers and writer rely on: `std::string::find`
 * for a delimiter, the find-and-erase splitting loop, `std::stoi`, the
 * `(unsigned)` and `int` conversions applied to its result, and the decimal
 * form `operator<<` writes for a non-negative integer.
 */
module Text {
  import opened Wrappers

  /** `d` occurs in `s` starting at index `p`. */
  predicate OccursAt(s: string, d: string, p: int)
  {
    0 <= p && p + |d| <= |s| && s[p..p + |d|] == d
  }

  ghost predicate Contains(s: string, d: string)
  {
    exists p :: OccursAt(s, d, p)
  }

  /** The leftmost occurrence of `d` at or after index `i`. */
  function FindFrom(s: string, d: string, i: nat): (r: Option<nat>)
    ensures r.Some? ==> i <= r.value && OccursAt(s, d, r.value)
    decreases |s| - i
  {
    if i + |d| > |s| then None
    else if s[i..i + |d|] == d then Some(i)
    else FindFrom(s, d, i + 1)
  }

  /** `FindFrom` finds the leftmost occurrence: none is skipped. */
  lemma {:induction false} FindFromLeftmost(s: string, d: string, i: nat)
    ensures FindFrom(s, d, i).Some? ==> forall p :: i <= p < FindFrom(s, d, i).value ==> !OccursAt(s, d, p)
    ensures FindFrom(s, d, i).None? ==> forall p :: i <= p ==> !OccursAt(s, d, p)
    decreases |s| - i
  {
    if i + |d| > |s| {
    } else if s[i..i + |d|] == d {
    } else {
      FindFromLeftmost(s, d, i + 1);
    }
  }

  /** `s.find(d)`: the leftmost occurrence of `d`, or `None` for `npos`. */
  function Find(s: string, d: string): (r: Option<nat>)
    ensures r.Some? ==> OccursAt(s, d, r.value)
  {
    FindFrom(s, d, 0)
  }

  /** `find` fails exactly when `d` does not occur, and otherwise no occurrence comes before the one it returns. */
  lemma FindLeftmost(s: string, d: string)
    ensures Find(s, d).Some? ==> forall p :: 0 <= p < Find(s, d).value ==> !OccursAt(s, d, p)
    ensures Find(s, d).None? <==> !Contains(s, d)
  {
    FindFromLeftmost(s, d, 0);
  }

  /** An occurrence inside a prefix is an occurrence in the whole string. */
  lemma OccursInPrefix(s: string, d: string, n: nat, p: int)
    requires n <= |s| && OccursAt(s[..n], d, p)
    ensures OccursAt(s, d, p) && p + |d| <= n
  {
    assert s[..n][p..p + |d|] == s[p..p + |d|];
  }

  /** An occurrence inside a suffix is an occurrence in the whole string, shifted. */
  lemma OccursInSuffix(s: string, d: string, n: nat, p: int)
    requires n <= |s| && OccursAt(s[n..], d, p)
    ensures OccursAt(s, d, n + p)
  {
    assert s[n..][p..p + |d|] == s[n + p..n + p + |d|];
  }

  /**
   * The segments the find-and-erase loop of `split` cuts `s` into: the text
   * before each leftmost delimiter, then whatever remains after the last one.
   * An empty delimiter would never shrink the string, so it is excluded.
   */
  function Split(s: string, d: string): (r: seq<string>)
    requires |d| > 0
    ensures |r| >= 1
    decreases |s|
  {
    match Find(s, d)
    case None => [s]
    case Some(p) => [s[..p]] + Split(s[p + |d|..], d)
  }

  /** No segment of `split` contains the delimiter. */
  lemma {:induction false} SplitSegmentsFree(s: string, d: string)
    requires |d| > 0
    ensures forall k :: 0 <= k < |Split(s, d)| ==> !Contains(Split(s, d)[k], d)
    decreases |s|
  {
    FindLeftmost(s, d);
    match Find(s, d)
    case None =>
    case Some(p) =>
      var head := s[..p];
      var rest := s[p + |d|..];
      SplitSegmentsFree(rest, d);
      forall q | OccursAt(head, d, q)
        ensures false
      {
        OccursInPrefix(s, d, p, q);
      }
      var r := Split(s, d);
      assert r == [head] + Split(rest, d);
      forall k | 0 <= k < |r|
        ensures !Contains(r[k], d)
      {
        if k > 0 {
          assert r[k] == Split(rest, d)[k - 1];
        }
      }
  }

  /** The segments glued back together with `d` between neighbours. */
  function Join(parts: seq<string>, d: string): string
    decreases |parts|
  {
    if parts == [] then ""
    else if |parts| == 1 then parts[0]
    else parts[0] + d + Join(parts[1..], d)
  }

  /** Splitting loses nothing: rejoining the segments with the delimiter gives `s` back. */
  lemma {:induction false} JoinSplit(s: string, d: string)
    requires |d| > 0
    ensures Join(Split(s, d), d) == s
    decreases |s|
  {
    match Find(s, d)
    case None =>
    case Some(p) =>
      var rest := s[p + |d|..];
      var parts := Split(s, d);
      assert parts == [s[..p]] + Split(rest, d);
      assert parts[1..] == Split(rest, d);
      JoinSplit(rest, d);
      assert Join(parts, d) == s[..p] + d + rest;
      assert s[p..p + |d|] == d;
      assert s == s[..p] + s[p..p + |d|] + rest;
  }

  /** A segment that does not contain the single character `c`. */
  lemma NoCharOccurrence(t: string, c: char)
    requires !Contains(t, [c])
    ensures forall k :: 0 <= k < |t| ==> t[k] != c
    ensures multiset(t)[c] == 0
  {
    forall k | 0 <= k < |t|
      ensures t[k] != c
    {
      assert t[k..k + 1] == [t[k]];
      assert !OccursAt(t, [c], k);
    }
    assert c !in t;
  }

  /** With a one-character delimiter, `split` yields one segment more than the delimiter's occurrences. */
  lemma {:induction false} SplitCountChar(s: string, c: char)
    ensures |Split(s, [c])| == multiset(s)[c] + 1
    decreases |s|
  {
    var d := [c];
    match Find(s, d)
    case None =>
      FindLeftmost(s, d);
      NoCharOccurrence(s, c);
    case Some(p) =>
      var rest := s[p + 1..];
      SplitCountChar(rest, c);
      SplitAt(s, d, p);
      FirstChar(s, c, p);
      assert c !in s[..p];
      assert s == s[..p] + [c] + rest;
      assert multiset(s) == multiset(s[..p]) + multiset{c} + multiset(rest);
  }

  /** Where `find` locates the single character c, it is there and nowhere before. */
  lemma FirstChar(s: string, c: char, p: nat)
    requires Find(s, [c]) == Some(p)
    ensures p < |s| && s[p] == c
    ensures forall k :: 0 <= k < p ==> s[k] != c
  {
    FindLeftmost(s, [c]);
    assert s[p..p + 1] == [c];
    forall k | 0 <= k < p
      ensures s[k] != c
    {
      assert !OccursAt(s, [c], k);
      assert s[k..k + 1] == [s[k]];
    }
  }

  /**
   * Splitting is the inverse of joining for a one-character delimiter: any
   * non-empty list of segments free of `c` comes back unchanged.
   */
  lemma {:induction false} SplitJoinChar(parts: seq<string>, c: char)
    requires |parts| >= 1
    requires forall k :: 0 <= k < |parts| ==> !Contains(parts[k], [c])
    ensures Split(Join(parts, [c]), [c]) == parts
    decreases |parts|
  {
    var d := [c];
    var s := Join(parts, d);
    if |parts| == 1 {
      FindLeftmost(s, d);
      assert Find(s, d).None?;
    } else {
      var tail := Join(parts[1..], d);
      var n := |parts[0]|;
      assert s == parts[0] + d + tail;
      NoCharOccurrence(parts[0], c);
      FindAfterFree(parts[0], c, tail);
      SplitAt(s, d, n);
      assert s[..n] == parts[0];
      assert s[n + 1..] == tail;
      SplitJoinChar(parts[1..], c);
      assert parts == [parts[0]] + parts[1..];
    }
  }

  /** In `head + [c] + tail` with no c in head, the first c sits right after head. */
  lemma FindAfterFree(head: string, c: char, tail: string)
    requires forall k :: 0 <= k < |head| ==> head[k] != c
    ensures Find(head + [c] + tail, [c]) == Some(|head|)
  {
    var s := head + [c] + tail;
    var n := |head|;
    FindLeftmost(s, [c]);
    assert OccursAt(s, [c], n) by {
      assert s[n..n + 1] == [c];
    }
    forall p | 0 <= p < n
      ensures !OccursAt(s, [c], p)
    {
      assert s[p..p + 1] == [head[p]];
    }
  }

  /** Where `find` succeeds, `split` cuts there and carries on after the delimiter. */
  lemma SplitAt(s: string, d: string, p: nat)
    requires |d| > 0 && Find(s, d) == Some(p)
    ensures p + |d| <= |s|
    ensures Split(s, d) == [s[..p]] + Split(s[p + |d|..], d)
  {
  }

  predicate IsDigit(ch: char)
  {
    '0' <= ch <= '9'
  }

  predicate AllDigits(s: string)
  {
    forall k :: 0 <= k < |s| ==> IsDigit(s[k])
  }

  /** The value of a decimal numeral, most significant digit first. */
  function DigitsValue(s: string): nat
    requires AllDigits(s)
  {
    if s == [] then 0
    else DigitsValue(s[..|s| - 1]) * 10 + ((s[|s| - 1] as int) - ('0' as int))
  }

  /** The digit character for 0 <= n < 10. */
  function DigitChar(n: nat): (ch: char)
    requires n < 10
    ensures IsDigit(ch) && (ch as int) - ('0' as int) == n
  {
    (('0' as int) + n) as char
  }

  /** The decimal form `operator<<` writes for a non-negative integer: no sign, no leading zeros. */
  function ShowNat(n: nat): (s: string)
    ensures |s| >= 1 && AllDigits(s)
    ensures n > 0 ==> s[0] != '0'
  {
    if n < 10 then [DigitChar(n)] else ShowNat(n / 10) + [DigitChar(n % 10)]
  }

  /** Reading back the numeral `ShowNat` writes gives the number. */
  lemma {:induction false} ShowNatValue(n: nat)
    ensures DigitsValue(ShowNat(n)) == n
  {
    if n >= 10 {
      var s := ShowNat(n);
      ShowNatValue(n / 10);
      assert s[..|s| - 1] == ShowNat(n / 10);
    }
  }

  /** The length of the longest prefix of `s` satisfying the digit test. */
  function DigitRun(s: string): (k: nat)
    ensures k <= |s| && AllDigits(s[..k])
    ensures k == |s| || !IsDigit(s[k])
  {
    if s == [] || !IsDigit(s[0]) then 0
    else
      var k := 1 + DigitRun(s[1..]);
      assert s[..k] == [s[0]] + s[1..][..k - 1];
      k
  }

  /** The characters `isspace` accepts in the C locale. */
  predicate IsSpace(ch: char)
  {
    ch == ' ' || ch == '\t' || ch == '\n' || ch == '\r' || ch as int == 11 || ch as int == 12
  }

  /** The number of leading white-space characters. */
  function SpaceRun(s: string): (k: nat)
    ensures k <= |s|
    ensures forall i :: 0 <= i < k ==> IsSpace(s[i])
    ensures k == |s| || !IsSpace(s[k])
  {
    if s == [] || !IsSpace(s[0]) then 0 else 1 + SpaceRun(s[1..])
  }

  const INT_MIN: int := -0x8000_0000
  const INT_MAX: int := 0x7FFF_FFFF
  const TWO_32: int := 0x1_0000_0000

  /** The text after leading white space and an optional sign. */
  function AfterSign(t: string): (w: string)
    ensures |w| <= |t| && w == t[|t| - |w|..]
  {
    var u := t[SpaceRun(t)..];
    if |u| > 0 && (u[0] == '+' || u[0] == '-') then u[1..] else u
  }

  /** -1 when the first character after the white space is '-', otherwise 1. */
  function SignOf(t: string): int
  {
    var u := t[SpaceRun(t)..];
    if |u| > 0 && u[0] == '-' then -1 else 1
  }

  /** The value of the digits `stoi` reads, before the sign is applied. */
  function Magnitude(t: string): nat
  {
    DigitsValue(AfterSign(t)[..DigitRun(AfterSign(t))])
  }

  /**
   * What `stoi` makes of `t`: a number exactly when a digit follows the white
   * space and sign and the signed value is within `int` range, and then that
   * value; so every magnitude up to `INT_MAX` is read.
   */
  predicate ReadsNumber(t: string, r: Option<int>)
  {
    && (r.Some? <==> DigitRun(AfterSign(t)) > 0 && INT_MIN <= SignOf(t) * Magnitude(t) <= INT_MAX)
    && (r.Some? ==> r.value == SignOf(t) * Magnitude(t))
    && (DigitRun(AfterSign(t)) > 0 && Magnitude(t) <= INT_MAX ==> r.Some?)
  }

  /**
   * `std::stoi`: skip leading white space, read an optional sign and the
   * longest run of digits after it, ignore the rest. It throws when there is
   * no digit or the value does not fit in an `int`; both are `None` here.
   */
  function Stoi(t: string): (r: Option<int>)
    ensures r.Some? ==> INT_MIN <= r.value <= INT_MAX
  {
    var u := t[SpaceRun(t)..];
    var signed := |u| > 0 && (u[0] == '+' || u[0] == '-');
    var w := if signed then u[1..] else u;
    var k := DigitRun(w);
    if k == 0 then None
    else
      var magnitude := DigitsValue(w[..k]);
      var v: int := if signed && u[0] == '-' then -(magnitude as int) else magnitude;
      if INT_MIN <= v <= INT_MAX then Some(v) else None
  }

  /** What `stoi` accepts and the value it reads: see `ReadsNumber`. */
  lemma StoiReads(t: string)
    ensures ReadsNumber(t, Stoi(t))
  {
  }

  /** A digit string's value is the value of any digit-free extension of it. */
  lemma ShowNatDigitRun(n: nat)
    ensures DigitRun(ShowNat(n)) == |ShowNat(n)|
  {
    var s := ShowNat(n);
    assert AllDigits(s);
  }

  /** `stoi` reads back every numeral `operator<<` writes for a value that fits in an `int`. */
  lemma StoiShow(n: nat)
    requires n <= INT_MAX
    ensures Stoi(ShowNat(n)) == Some(n)
  {
    var s := ShowNat(n);
    assert !IsSpace(s[0]);
    assert s[0..] == s;
    assert !(s[0] == '+' || s[0] == '-') by {
      assert IsDigit(s[0]);
    }
    ShowNatDigitRun(n);
    assert s[..|s|] == s;
    ShowNatValue(n);
  }

  /** A numeral holds no occurrence of a non-digit character. */
  lemma NumeralFree(n: nat, c: char)
    requires !IsDigit(c)
    ensures !Contains(ShowNat(n), [c])
  {
    var s := ShowNat(n);
    forall p | 0 <= p < |s|
      ensures !OccursAt(s, [c], p)
    {
      assert s[p..p + 1] == [s[p]];
    }
  }

  /** `(unsigned) x` for an `int` x: reduction modulo 2^32. */
  function ToUnsigned(x: int): (u: nat)
    ensures u < TWO_32 && (u - x) % TWO_32 == 0
  {
    x % TWO_32
  }

  /** `num--` on an `unsigned`: 0 wraps to 2^32 - 1. */
  function DecUnsigned(u: nat): (r: nat)
    requires u < TWO_32
    ensures r < TWO_32
    ensures u > 0 ==> r == u - 1
    ensures u == 0 ==> r == TWO_32 - 1
  {
    (u + TWO_32 - 1) % TWO_32
  }

  /** Converting an `unsigned` to `int`: values above `INT_MAX` wrap to negatives. */
  function ToSigned(u: nat): (x: int)
    requires u < TWO_32
    ensures INT_MIN <= x <= INT_MAX
    ensures u <= INT_MAX ==> x == u
    ensures u > INT_MAX ==> x < 0
  {
    if u <= INT_MAX then u else u - TWO_32
  }

  /** `(unsigned) stoi(t)` on each of a list of segments; `None` if any `stoi` throws. */
  function StoiAll(segs: seq<string>): (r: Option<seq<nat>>)
    ensures r.Some? <==> forall k :: 0 <= k < |segs| ==> Stoi(segs[k]).Some?
    ensures r.Some? ==> |r.value| == |segs|
    ensures r.Some? ==> forall k :: 0 <= k < |segs| ==> r.value[k] == ToUnsigned(Stoi(segs[k]).value)
  {
    if segs == [] then Some([])
    else match (Stoi(segs[0]), StoiAll(segs[1..]))
      case (Some(v), Some(rest)) => Some([ToUnsigned(v)] + rest)
      case _ => None
  }
}
