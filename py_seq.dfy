/// The pieces of Python's sequence semantics the resolver leans on:
/// clamping slices (`t[2:-1]`, `strings[first:last]`, `buf[:i]`) and
/// `str.strip('\0')`.
module PySeq {

  /// One byte of a `bytes` object.
  type byte = b: int | 0 <= b < 0x100

  datatype Option<T> = None | Some(value: T)

  /// Where a Python slice bound lands in a sequence of length `n`: a
  /// negative bound counts from the end, and both kinds are clamped to
  /// `0..n`.
  function Bound(i: int, n: nat): (b: nat)
    ensures b <= n
    ensures 0 <= i <= n ==> b == i
    ensures -(n as int) <= i < 0 ==> b == n + i
    ensures i > n ==> b == n
    ensures i < -(n as int) ==> b == 0
  {
    if i < 0 then (if n + i < 0 then 0 else n + i)
    else if i > n then n
    else i
  }

  /// `s[lo:hi]` in Python: never fails; bounds are clamped, and a slice
  /// whose start lies at or after its end is empty.
  function Slice<T>(s: seq<T>, lo: int, hi: int): (r: seq<T>)
    ensures var a, b := Bound(lo, |s|), Bound(hi, |s|);
      |r| == (if a <= b then b - a else 0) &&
      forall k | 0 <= k < |r| :: r[k] == s[a + k]
  {
    var a, b := Bound(lo, |s|), Bound(hi, |s|);
    if a <= b then s[a..b] else []
  }

  /// A slice whose bounds are already inside the sequence is Dafny's own
  /// subsequence.
  lemma SliceWithin<T>(s: seq<T>, lo: nat, hi: nat)
    requires lo <= hi <= |s|
    ensures Slice(s, lo, hi) == s[lo..hi]
  {
  }

  /// `t[2:-k]` drops a two-byte head and a `k`-element tail, and is empty
  /// when there is nothing between them.
  lemma SliceStripsEnvelope<T>(head: seq<T>, body: seq<T>, tail: seq<T>)
    requires |head| == 2 && 0 < |tail|
    ensures Slice(head + body + tail, 2, -|tail|) == body
  {
    var s := head + body + tail;
    assert Bound(-|tail|, |s|) == 2 + |body|;
    assert s[2..2 + |body|] == body;
  }

  const NUL: char := '\0'

  predicate AllNul(s: string)
  {
    forall k | 0 <= k < |s| :: s[k] == NUL
  }

  /// `s.lstrip('\0')`.
  function LStripNul(s: string): string
  {
    if s != [] && s[0] == NUL then LStripNul(s[1..]) else s
  }

  /// `s.rstrip('\0')`.
  function RStripNul(s: string): string
  {
    if s != [] && s[|s| - 1] == NUL then RStripNul(s[..|s| - 1]) else s
  }

  /// `s.strip('\0')`.
  function StripNul(s: string): string
  {
    RStripNul(LStripNul(s))
  }

  /// `lstrip('\0')` removes a run of NULs from the front and leaves a
  /// suffix that does not start with NUL.
  lemma {:induction false} LStripNulSpec(s: string)
    ensures var r := LStripNul(s);
      && (r == [] || r[0] != NUL)
      && |r| <= |s| && r == s[|s| - |r|..] && AllNul(s[..|s| - |r|])
  {
    if s != [] && s[0] == NUL {
      var t := s[1..];
      LStripNulSpec(t);
      var r := LStripNul(t);
      assert s[|s| - |r|..] == t[|t| - |r|..];
      assert s[..|s| - |r|] == [NUL] + t[..|t| - |r|];
    }
  }

  /// `rstrip('\0')` removes a run of NULs from the end and leaves a prefix
  /// that does not end with NUL.
  lemma {:induction false} RStripNulSpec(s: string)
    ensures var r := RStripNul(s);
      && (r == [] || r[|r| - 1] != NUL)
      && |r| <= |s| && r == s[..|r|] && AllNul(s[|r|..])
  {
    if s != [] && s[|s| - 1] == NUL {
      var t := s[..|s| - 1];
      RStripNulSpec(t);
      var r := RStripNul(t);
      assert s[..|r|] == t[..|r|];
      assert s[|r|..] == t[|r|..] + [NUL];
    }
  }

  /// `strip('\0')` keeps an infix of its argument that neither starts nor
  /// ends with NUL, and cuts off nothing but NULs on either side.
  lemma StripNulSpec(s: string)
    ensures var r := StripNul(s);
      && (r == [] || (r[0] != NUL && r[|r| - 1] != NUL))
      && exists i | 0 <= i <= |s| - |r| ::
           r == s[i..i + |r|] && AllNul(s[..i]) && AllNul(s[i + |r|..])
  {
    var l := LStripNul(s);
    var r := RStripNul(l);
    LStripNulSpec(s);
    RStripNulSpec(l);
    var i := |s| - |l|;
    assert r == s[i..i + |r|];
    assert s[i + |r|..] == l[|r|..];
  }

  /// Text that neither starts nor ends with NUL survives `strip('\0')`.
  lemma StripNulKeeps(s: string)
    requires s == [] || (s[0] != NUL && s[|s| - 1] != NUL)
    ensures StripNul(s) == s
  {
  }

  /// Stripping twice is stripping once.
  lemma StripNulIdempotent(s: string)
    ensures StripNul(StripNul(s)) == StripNul(s)
  {
    StripNulSpec(s);
    StripNulKeeps(StripNul(s));
  }
}
