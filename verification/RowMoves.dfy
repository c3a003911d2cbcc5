/** Moving a block of rows within a list, which is all that inserting, deleting and scrolling
    lines does to the rows of a screen. */
module RowMoves {
  predicate Distinct<T(==)>(s: seq<T>) {
    forall i, j | 0 <= i < j < |s| :: s[i] != s[j]
  }

  /** The block of `count` elements at `from` is taken out and put in at position `to` of what
      is left. */
  function Moved<T>(s: seq<T>, from: nat, count: nat, to: nat): (r: seq<T>)
    requires from + count <= |s| && to + count <= |s|
    ensures |r| == |s|
  {
    var rest := s[..from] + s[from + count..];
    rest[..to] + s[from..from + count] + rest[to..]
  }

  /** Where each element goes. */
  function Destination(from: nat, count: nat, to: nat, k: nat): (j: nat) {
    if from <= k < from + count then k - from + to
    else
      var reduced := if k < from then k else k - count;
      if reduced < to then reduced else reduced + count
  }

  lemma MovedAt<T>(s: seq<T>, from: nat, count: nat, to: nat, k: nat)
    requires from + count <= |s| && to + count <= |s| && k < |s|
    ensures Destination(from, count, to, k) < |s| && Moved(s, from, count, to)[Destination(from, count, to, k)] == s[k]
  {
  }

  /** Moving back undoes the move, so a move is a permutation. */
  lemma MoveBack<T>(s: seq<T>, from: nat, count: nat, to: nat)
    requires from + count <= |s| && to + count <= |s|
    ensures Moved(Moved(s, from, count, to), to, count, from) == s
  {
    var rest := s[..from] + s[from + count..];
    var block := s[from..from + count];
    var moved := Moved(s, from, count, to);
    assert moved[..to] == rest[..to] && moved[to + count..] == rest[to..] && moved[to..to + count] == block;
    assert rest == moved[..to] + moved[to + count..];
    assert rest[..from] == s[..from] && rest[from..] == s[from + count..];
  }

  lemma MiddlePart<T>(a: seq<T>, m: seq<T>, b: seq<T>)
    ensures multiset(a + m + b) == multiset(a + b) + multiset(m)
  {
  }

  lemma MovedParts<T>(s: seq<T>, from: nat, count: nat, to: nat)
    requires from + count <= |s| && to + count <= |s|
    ensures var rest := s[..from] + s[from + count..];
            s == s[..from] + s[from..from + count] + s[from + count..] && rest == rest[..to] + rest[to..]
  {
  }

  lemma MovedIsPermutation<T>(s: seq<T>, from: nat, count: nat, to: nat)
    requires from + count <= |s| && to + count <= |s|
    ensures multiset(Moved(s, from, count, to)) == multiset(s)
  {
    MovedParts(s, from, count, to);
    var rest := s[..from] + s[from + count..];
    MiddlePart(s[..from], s[from..from + count], s[from + count..]);
    MiddlePart(rest[..to], s[from..from + count], rest[to..]);
  }

  lemma MovedStaysDistinct<T>(s: seq<T>, from: nat, count: nat, to: nat)
    requires from + count <= |s| && to + count <= |s| && Distinct(s)
    ensures Distinct(Moved(s, from, count, to))
  {
    hide Moved;
    var moved := Moved(s, from, count, to);
    MoveBack(s, from, count, to);
    forall i, j | 0 <= i < j < |moved| ensures moved[i] != moved[j] {
      MovedAt(moved, to, count, from, i);
      MovedAt(moved, to, count, from, j);
      TargetsDiffer(to, count, from, i, j);
      var a, b := Destination(to, count, from, i), Destination(to, count, from, j);
      assert s[a] == moved[i] && s[b] == moved[j];
    }
  }

  lemma TargetsDiffer(from: nat, count: nat, to: nat, i: nat, j: nat)
    requires i != j
    ensures Destination(from, count, to, i) != Destination(from, count, to, j)
  {
  }

  lemma MovedOutsideAt<T>(s: seq<T>, from: nat, count: nat, to: nat)
    requires from + count <= |s| && to + count <= |s|
    ensures var start := if from < to then from else to;
            var end := (if from < to then to else from) + count;
            forall k | 0 <= k < |s| && !(start <= k < end) :: Moved(s, from, count, to)[k] == s[k]
  {
  }

  /** Outside the stretch between the two places nothing changes. */
  lemma MovedOutside<T>(s: seq<T>, from: nat, count: nat, to: nat)
    requires from + count <= |s| && to + count <= |s|
    ensures var start := if from < to then from else to;
            var end := (if from < to then to else from) + count;
            var moved := Moved(s, from, count, to);
            moved[..start] == s[..start] && moved[end..] == s[end..]
  {
    hide Moved;
    var start := if from < to then from else to;
    var end := (if from < to then to else from) + count;
    var moved := Moved(s, from, count, to);
    MovedOutsideAt(s, from, count, to);
    assert forall k | 0 <= k < start :: moved[..start][k] == s[..start][k];
    assert forall k | 0 <= k < |s| - end :: moved[end..][k] == moved[end + k] == s[end + k] == s[end..][k];
  }

  /** The stretch `lo..hi` shifts down by `n`: its last `n` elements come to its front. */
  function ShiftedDown<T>(s: seq<T>, lo: nat, hi: nat, n: nat): (r: seq<T>)
    requires lo + n <= hi <= |s|
    ensures |r| == |s|
  {
    s[..lo] + s[hi - n..hi] + s[lo..hi - n] + s[hi..]
  }

  /** The stretch `lo..hi` shifts up by `n`: its first `n` elements come to its end. */
  function ShiftedUp<T>(s: seq<T>, lo: nat, hi: nat, n: nat): (r: seq<T>)
    requires lo + n <= hi <= |s|
    ensures |r| == |s|
  {
    s[..lo] + s[lo + n..hi] + s[lo..lo + n] + s[hi..]
  }

  /** Shifting down by `n` takes each row of the stretch `n` places further; the last `n` rows come
      to the front in their order. Outside of the stretch nothing changes. */
  lemma ShiftedDownAt<T>(s: seq<T>, lo: nat, hi: nat, n: nat, k: nat)
    requires lo + n <= hi <= |s| && k < |s|
    ensures ShiftedDown(s, lo, hi, n)[k]
            == if k < lo || k >= hi then s[k] else if k < lo + n then s[hi - n + (k - lo)] else s[k - n]
  {
  }

  /** Shifting up by `n` takes each row `n` places back; the first `n` rows come to the end. */
  lemma ShiftedUpAt<T>(s: seq<T>, lo: nat, hi: nat, n: nat, k: nat)
    requires lo + n <= hi <= |s| && k < |s|
    ensures ShiftedUp(s, lo, hi, n)[k]
            == if k < lo || k >= hi then s[k] else if k < hi - n then s[k + n] else s[lo + (k - (hi - n))]
  {
  }

  lemma MoveShiftsDown<T>(s: seq<T>, lo: nat, hi: nat, n: nat)
    requires lo + n <= hi <= |s|
    ensures Moved(s, lo, hi - lo - n, lo + n) == ShiftedDown(s, lo, hi, n)
  {
    var count := hi - lo - n;
    var rest := s[..lo] + s[lo + count..];
    assert rest[..lo + n] == s[..lo] + s[hi - n..hi] && rest[lo + n..] == s[hi..];
  }

  lemma MoveShiftsUp<T>(s: seq<T>, lo: nat, hi: nat, n: nat)
    requires lo + n <= hi <= |s|
    ensures Moved(s, lo, n, hi - n) == ShiftedUp(s, lo, hi, n)
  {
    var rest := s[..lo] + s[lo + n..];
    assert rest[..hi - n] == s[..lo] + s[lo + n..hi] && rest[hi - n..] == s[hi..];
  }

  lemma WholeShift<T>(s: seq<T>, lo: nat, hi: nat)
    requires lo <= hi <= |s|
    ensures ShiftedUp(s, lo, hi, hi - lo) == s == ShiftedDown(s, lo, hi, 0)
  {
  }

  lemma MoveBackShiftsDown<T>(s: seq<T>, lo: nat, hi: nat, n: nat)
    requires lo + n <= hi <= |s|
    ensures Moved(s, hi - n, n, lo) == ShiftedDown(s, lo, hi, n)
  {
    var rest := s[..hi - n] + s[hi..];
    assert rest[..lo] == s[..lo] && rest[lo..] == s[lo..hi - n] + s[hi..];
  }

  lemma MoveBackShiftsUp<T>(s: seq<T>, lo: nat, hi: nat, n: nat)
    requires lo + n <= hi <= |s|
    ensures Moved(s, lo + n, hi - lo - n, lo) == ShiftedUp(s, lo, hi, n)
  {
    var rest := s[..lo + n] + s[hi..];
    assert rest[..lo] == s[..lo] && rest[lo..] == s[lo..lo + n] + s[hi..];
  }

  /** Shifting up and shifting down undo each other. */
  lemma ShiftsAreInverse<T>(s: seq<T>, lo: nat, hi: nat, n: nat)
    requires lo + n <= hi <= |s|
    ensures ShiftedUp(ShiftedDown(s, lo, hi, n), lo, hi, n) == s
    ensures ShiftedDown(ShiftedUp(s, lo, hi, n), lo, hi, n) == s
  {
    hide *;
    MoveShiftsDown(s, lo, hi, n);
    MoveBack(s, lo, hi - lo - n, lo + n);
    MoveBackShiftsUp(ShiftedDown(s, lo, hi, n), lo, hi, n);
    MoveShiftsUp(s, lo, hi, n);
    MoveBack(s, lo, n, hi - n);
    MoveBackShiftsDown(ShiftedUp(s, lo, hi, n), lo, hi, n);
  }
}
