/** Sets of positions: the meaning of a bitmap, and of a cache-way mask. */
module WaySets {

  /** The positions lo, lo+1, ..., hi-1. */
  function Interval(lo: nat, hi: nat): (s: set<nat>)
    ensures forall i: nat :: i in s <==> lo <= i < hi
    decreases hi
  {
    if lo < hi then Interval(lo, hi - 1) + {hi - 1} else {}
  }

  /** `n` consecutive members of `s`, starting at `p`. */
  ghost predicate Fits(s: set<nat>, p: nat, n: nat) {
    Interval(p, p + n) <= s
  }

  /** The hardware accepts only masks whose ones form one block. */
  ghost predicate Contiguous(s: set<nat>) {
    exists lo: nat, hi: nat :: lo < hi && s == Interval(lo, hi)
  }

  /** `p` starts the lowest block of `n` members of `s` at or above `floor`. */
  ghost predicate LowestFit(s: set<nat>, n: nat, floor: nat, p: nat) {
    && floor <= p && Fits(s, p, n)
    && forall q: nat :: floor <= q < p ==> !Fits(s, q, n)
  }

  /** `p` starts the highest block of `n` members of `s` that ends at or below `ceiling`. */
  ghost predicate HighestFit(s: set<nat>, n: nat, ceiling: int, p: nat) {
    && p + n <= ceiling && Fits(s, p, n)
    && forall q: nat :: p < q && q + n <= ceiling ==> !Fits(s, q, n)
  }

  /** `r` is the lowest block of `n` members at or above `floor`, or empty when there is none. */
  ghost predicate TakesLowest(s: set<nat>, n: nat, floor: nat, r: set<nat>) {
    if r == {} then forall p: nat :: floor <= p ==> !Fits(s, p, n)
    else exists p: nat :: LowestFit(s, n, floor, p) && r == Interval(p, p + n)
  }

  /** `r` is the highest block of `n` members ending at or below `ceiling`, or empty when there
      is none. */
  ghost predicate TakesHighest(s: set<nat>, n: nat, ceiling: int, r: set<nat>) {
    if r == {} then forall p: nat :: p + n <= ceiling ==> !Fits(s, p, n)
    else exists p: nat :: HighestFit(s, n, ceiling, p) && r == Interval(p, p + n)
  }

  /** `n` is the length of the longest block of consecutive members of `s`. */
  ghost predicate LongestBlock(s: set<nat>, n: nat) {
    && (exists p: nat :: Fits(s, p, n))
    && forall p: nat, m: nat :: Fits(s, p, m) ==> m <= n
  }

  lemma IntervalSize(lo: nat, hi: nat)
    requires lo <= hi
    ensures |Interval(lo, hi)| == hi - lo
    decreases hi
  {
    if lo < hi {
      IntervalSize(lo, hi - 1);
    }
  }

  lemma IntervalIsBlock(p: nat, n: nat)
    requires n >= 1
    ensures Contiguous(Interval(p, p + n)) && |Interval(p, p + n)| == n
  {
    IntervalSize(p, p + n);
    assert p < p + n;
  }

  /** What a search takes is a block of the size asked for. */
  lemma TakenLowest(s: set<nat>, n: nat, floor: nat, r: set<nat>)
    requires TakesLowest(s, n, floor, r) && r != {}
    ensures r <= s && |r| == n && Contiguous(r)
  {
    var p: nat :| LowestFit(s, n, floor, p) && r == Interval(p, p + n);
    assert n >= 1;
    IntervalIsBlock(p, n);
  }

  lemma TakenHighest(s: set<nat>, n: nat, ceiling: int, r: set<nat>)
    requires TakesHighest(s, n, ceiling, r) && r != {}
    ensures r <= s && |r| == n && Contiguous(r)
  {
    var p: nat :| HighestFit(s, n, ceiling, p) && r == Interval(p, p + n);
    assert n >= 1;
    IntervalIsBlock(p, n);
  }

  /** Where the longest block fits, any shorter one does too. */
  lemma ShorterFits(s: set<nat>, longest: nat, n: nat)
    requires n <= longest && LongestBlock(s, longest)
    ensures exists p: nat :: Fits(s, p, n)
  {
    var p: nat :| Fits(s, p, longest);
    assert Interval(p, p + n) <= Interval(p, p + longest);
    assert Fits(s, p, n);
  }
}
