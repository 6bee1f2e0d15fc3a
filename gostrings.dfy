/**
 * The functions of Go's `strings` package that the core relies on, over
 * sequences of any element type and with a one-element separator (the only
 * kind the core uses): `HasSuffix`, `TrimSuffix`, `Index`, `LastIndex`,
 * `Split`, `SplitN` and `Join`.
 */
module GoStrings {

  predicate HasSuffix<T(==)>(s: seq<T>, suffix: seq<T>)
  {
    |suffix| <= |s| && s[|s| - |suffix|..] == suffix
  }

  /** `strings.TrimSuffix`: drops `suffix` once if `s` ends with it. */
  function TrimSuffix<T(==)>(s: seq<T>, suffix: seq<T>): (r: seq<T>)
    ensures HasSuffix(s, suffix) ==> r + suffix == s
    ensures !HasSuffix(s, suffix) ==> r == s
    ensures r == s[..|r|]
  {
    if HasSuffix(s, suffix) then s[..|s| - |suffix|] else s
  }

  /** `s` holds no `d`. */
  predicate Free<T(==)>(s: seq<T>, d: T)
  {
    forall k :: 0 <= k < |s| ==> s[k] != d
  }

  /** What holds no `d` has no prefix holding one. */
  lemma FreePrefix<T>(s: seq<T>, d: T, n: nat)
    requires n <= |s| && Free(s, d)
    ensures Free(s[..n], d)
  {
    assert forall k :: 0 <= k < n ==> s[..n][k] == s[k];
  }

  /**
   * `strings.Index` with a one-element separator: the position of the first `d`
   * in `s`, or `|s|` (where Go answers -1) when there is none.
   */
  function Index<T(==)>(s: seq<T>, d: T): (i: nat)
    ensures i <= |s| && Free(s[..i], d)
    ensures i < |s| ==> s[i] == d
  {
    if s == [] then 0
    else if s[0] == d then 0
    else
      var j := Index(s[1..], d);
      assert s[..j + 1] == [s[0]] + s[1..][..j];
      j + 1
  }

  /**
   * `strings.LastIndex` with a one-element separator: the position of the last
   * `d` in `s`, or `|s|` when there is none.
   */
  function LastIndex<T(==)>(s: seq<T>, d: T): (i: nat)
    ensures i <= |s|
    ensures i == |s| <==> Free(s, d)
    ensures i < |s| ==> s[i] == d && Free(s[i + 1..], d)
  {
    if s == [] then 0
    else if s[|s| - 1] == d then |s| - 1
    else
      var init := s[..|s| - 1];
      var j := LastIndex(init, d);
      if j == |init| then |s|
      else
        assert forall k :: j + 1 <= k < |init| ==> s[k] == init[j + 1..][k - j - 1];
        j
  }

  /** The first `d`, characterised by its position: nothing before it is `d`. */
  lemma IndexUnique<T>(s: seq<T>, d: T, k: nat)
    requires k <= |s| && Free(s[..k], d) && (k < |s| ==> s[k] == d)
    ensures Index(s, d) == k
  {
    var i := Index(s, d);
    assert forall j :: 0 <= j < k ==> s[..k][j] == s[j];
    assert forall j :: 0 <= j < i ==> s[..i][j] == s[j];
  }

  /** The last `d`, characterised by its position: nothing after it is `d`. */
  lemma LastIndexUnique<T>(s: seq<T>, d: T, k: nat)
    requires k < |s| && s[k] == d && Free(s[k + 1..], d)
    ensures LastIndex(s, d) == k
  {
    var i := LastIndex(s, d);
    assert forall j :: k < j < |s| ==> s[k + 1..][j - k - 1] == s[j];
    if i < |s| {
      assert forall j :: i < j < |s| ==> s[i + 1..][j - i - 1] == s[j];
    }
  }

  /** `strings.Join` with a one-element separator. */
  function Join<T>(parts: seq<seq<T>>, d: T): seq<T>
  {
    if |parts| == 0 then []
    else if |parts| == 1 then parts[0]
    else parts[0] + [d] + Join(parts[1..], d)
  }

  lemma {:induction false} JoinSnoc<T>(parts: seq<seq<T>>, p: seq<T>, d: T)
    requires |parts| >= 1
    ensures Join(parts + [p], d) == Join(parts, d) + [d] + p
  {
    if |parts| == 1 {
      assert parts + [p] == [parts[0], p];
      assert (parts + [p])[1..] == [p];
    } else {
      assert (parts + [p])[1..] == parts[1..] + [p];
      JoinSnoc(parts[1..], p, d);
    }
  }

  /**
   * `strings.Split` with a one-element separator: the pieces of `s` between the
   * occurrences of `d`. There is always at least one piece (`Split("")` is `[""]`),
   * no piece holds `d`, and joining the pieces gives `s` back.
   */
  function Split<T(==)>(s: seq<T>, d: T): (parts: seq<seq<T>>)
    ensures |parts| >= 1
    ensures forall i :: 0 <= i < |parts| ==> Free(parts[i], d)
    ensures Join(parts, d) == s
    decreases |s|
  {
    var i := Index(s, d);
    if i == |s| then
      assert s[..i] == s;
      [s]
    else
      var tail := Split(s[i + 1..], d);
      var parts := [s[..i]] + tail;
      assert parts[0] == s[..i] && parts[1..] == tail;
      assert forall j :: 1 <= j < |parts| ==> parts[j] == tail[j - 1];
      assert Join(parts, d) == s[..i] + [d] + Join(tail, d);
      assert s == s[..i] + [d] + s[i + 1..];
      parts
  }

  /**
   * `strings.SplitN` with `n > 0` and a one-element separator: splits at the
   * first `n - 1` occurrences of `d` only, so the last piece keeps any further
   * `d`. At most `n` pieces, none but the last holds `d`, the last holds `d` only
   * when all `n` pieces are used, and joining the pieces gives `s` back.
   */
  function SplitN<T(==)>(s: seq<T>, d: T, n: nat): (parts: seq<seq<T>>)
    requires n >= 1
    ensures 1 <= |parts| <= n
    ensures forall i :: 0 <= i < |parts| - 1 ==> Free(parts[i], d)
    ensures |parts| < n ==> Free(parts[|parts| - 1], d)
    ensures Join(parts, d) == s
    decreases n
  {
    var i := Index(s, d);
    if n == 1 || i == |s| then
      assert i == |s| ==> s[..i] == s;
      [s]
    else
      var tail := SplitN(s[i + 1..], d, n - 1);
      var parts := [s[..i]] + tail;
      assert parts[0] == s[..i] && parts[1..] == tail;
      assert forall j :: 1 <= j < |parts| ==> parts[j] == tail[j - 1];
      assert Join(parts, d) == s[..i] + [d] + Join(tail, d);
      assert s == s[..i] + [d] + s[i + 1..];
      parts
  }

  /** Splitting undoes joining: `Split(Join(parts))` gives back pieces that hold no separator. */
  lemma {:induction false} SplitJoin<T>(parts: seq<seq<T>>, d: T)
    requires |parts| >= 1
    requires forall i :: 0 <= i < |parts| ==> Free(parts[i], d)
    ensures Split(Join(parts, d), d) == parts
  {
    var s := Join(parts, d);
    if |parts| == 1 {
      IndexUnique(s, d, |s|);
    } else {
      var p := parts[0];
      assert s == p + [d] + Join(parts[1..], d);
      assert s[..|p|] == p;
      IndexUnique(s, d, |p|);
      assert s[|p| + 1..] == Join(parts[1..], d);
      SplitJoin(parts[1..], d);
    }
  }

  /** A first piece free of the separator is split off first. */
  lemma SplitNCons<T>(x: seq<T>, d: T, rest: seq<T>, n: nat)
    requires n > 1 && Free(x, d)
    ensures SplitN(x + [d] + rest, d, n) == [x] + SplitN(rest, d, n - 1)
  {
    var s := x + [d] + rest;
    assert s[..|x|] == x;
    IndexUnique(s, d, |x|);
    assert s[|x| + 1..] == rest;
  }

  /**
   * `SplitN` agrees with `Split` on all but its last piece: it yields as many
   * pieces as `Split` does but never more than `n`, and exactly the pieces of
   * `Split` when those are at most `n`.
   */
  lemma {:induction false} SplitNSplit<T>(s: seq<T>, d: T, n: nat)
    requires n >= 1
    ensures |SplitN(s, d, n)| == Min(|Split(s, d)|, n)
    ensures |Split(s, d)| <= n ==> SplitN(s, d, n) == Split(s, d)
    ensures forall k :: 0 <= k < |SplitN(s, d, n)| - 1 ==> SplitN(s, d, n)[k] == Split(s, d)[k]
    decreases n
  {
    var i := Index(s, d);
    if n > 1 && i < |s| {
      var rest := s[i + 1..];
      SplitNSplit(rest, d, n - 1);
      SplitNSplitStep(SplitN(s, d, n), Split(s, d), SplitN(rest, d, n - 1), Split(rest, d), s[..i], n);
    } else if i < |s| {
      assert Split(s, d) == [s[..i]] + Split(s[i + 1..], d);
    }
  }

  lemma SplitNSplitStep<T>(a: seq<seq<T>>, b: seq<seq<T>>, a': seq<seq<T>>, b': seq<seq<T>>, h: seq<T>, n: nat)
    requires n > 1 && a == [h] + a' && b == [h] + b'
    requires |a'| == Min(|b'|, n - 1) && (|b'| <= n - 1 ==> a' == b')
    requires forall k :: 0 <= k < |a'| - 1 ==> a'[k] == b'[k]
    ensures |a| == Min(|b|, n) && (|b| <= n ==> a == b)
    ensures forall k :: 0 <= k < |a| - 1 ==> a[k] == b[k]
  {
    forall k | 0 <= k < |a| - 1
      ensures a[k] == b[k]
    {
      if k > 0 {
        assert a[k] == a'[k - 1] && b[k] == b'[k - 1];
      }
    }
  }

  function Min(a: int, b: int): int
  {
    if a < b then a else b
  }
}
