/** The reversed-binary counter and the swap pass that opens the in-place transform. */
module BitReversal {
  import opened Fourier

  /** `i` read with its bits in the opposite order, for a power-of-two range of size `n`. */
  ghost function Rev(n: nat, i: nat): (r: nat)
    requires IsPowerOfTwo(n) && i < n
    ensures r < n
    decreases n
  {
    if n == 1 then 0
    else if i < n / 2 then 2 * Rev(n / 2, i)
    else 2 * Rev(n / 2, i - n / 2) + 1
  }

  /** Peeling the lowest bit instead of the highest. */
  lemma {:induction false} RevLowBit(n: nat, i: nat)
    requires IsPowerOfTwo(n) && n >= 2 && i < n
    ensures Rev(n, i) == (if i % 2 == 1 then n / 2 else 0) + Rev(n / 2, i / 2)
    decreases n
  {
    var h := n / 2;
    if n == 2 {
      assert Rev(1, 0) == 0;
    } else {
      var j := if i < h then i else i - h;
      RevLowBit(h, j);
      assert j / 2 == if i < h then i / 2 else i / 2 - h / 2;
    }
  }

  lemma {:induction false} RevInvolution(n: nat, i: nat)
    requires IsPowerOfTwo(n) && i < n
    ensures Rev(n, Rev(n, i)) == i
    decreases n
  {
    if n == 1 {
    } else {
      var j := if i < n / 2 then i else i - n / 2;
      RevInvolution(n / 2, j);
      RevLowBit(n, Rev(n, i));
    }
  }

  /** The index map and the recursive even/odd listing are the same permutation. */
  lemma {:induction false} ReversedAt<T>(x: seq<T>, k: nat)
    requires IsPowerOfTwo(|x|) && k < |x|
    ensures Reversed(x)[k] == x[Rev(|x|, k)]
    decreases |x|
  {
    var h := |x| / 2;
    if |x| == 1 {
    } else {
      if k < h {
        ReversedAt(Evens(x), k);
      } else {
        ReversedAt(Odds(x), k - h);
      }
    }
  }

  /** `j & bit` for a power of two `bit`. */
  predicate BitSet(j: nat, bit: nat) {
    bit != 0 && j / bit % 2 == 1
  }

  /** `j ^ bit` for a power of two `bit`. */
  function FlipBit(j: nat, bit: nat): nat {
    if BitSet(j, bit) then j - bit else j + bit
  }

  lemma TopBit(j: nat, bit: nat)
    requires 0 < bit && j < 2 * bit
    ensures BitSet(j, bit) <==> j >= bit
  {
    if j < bit {
      assert j / bit == 0;
    } else {
      assert j / bit == 1;
    }
  }

  /** The carry rule, one bit at a time from the top. */
  lemma Carry(bit: nat, p: nat)
    requires 0 < bit && IsPowerOfTwo(2 * bit) && p + 1 < 2 * bit
    ensures Rev(2 * bit, p) < bit ==> Rev(2 * bit, p + 1) == Rev(2 * bit, p) + bit
    ensures Rev(2 * bit, p) >= bit ==>
      bit >= 2 && p / 2 + 1 < bit
      && Rev(bit, p / 2) == Rev(2 * bit, p) - bit && Rev(2 * bit, p + 1) == Rev(bit, p / 2 + 1)
  {
    hide Rev;
    RevLowBit(2 * bit, p);
    RevLowBit(2 * bit, p + 1);
  }

  /** One increment of the reversed counter: carries run from the top bit downwards. */
  method Advance(n: nat, i: nat, j: nat) returns (next: nat)
    requires IsPowerOfTwo(n) && 0 < i < n && j == Rev(n, i - 1)
    ensures next == Rev(n, i)
  {
    hide BitSet, Rev;
    var bit := n / 2;
    next := j;
    ghost var p: nat := i - 1;
    TopBit(next, bit);
    while BitSet(next, bit)
      invariant 0 < bit && IsPowerOfTwo(2 * bit) && p + 1 < 2 * bit
      invariant next == Rev(2 * bit, p) && Rev(2 * bit, p + 1) == Rev(n, i)
      invariant BitSet(next, bit) <==> next >= bit
      decreases bit
    {
      Carry(bit, p);
      next := FlipBit(next, bit);
      bit, p := bit / 2, p / 2;
      TopBit(next, bit);
    }
    Carry(bit, p);
    next := FlipBit(next, bit);
  }

  /** The pairs already exchanged once indices below `i` have been visited. */
  ghost predicate SwappedBelow(now: seq<real>, was: seq<real>, i: nat)
    requires |now| == |was| && IsPowerOfTwo(|was|)
  {
    forall k :: 0 <= k < |was| ==>
      now[k] == if k < i || Rev(|was|, k) < i then was[Rev(|was|, k)] else was[k]
  }

  /** The permutation loop: every element ends at its reversed index, each pair swapped once. */
  method Permute(re: array<real>, im: array<real>, n: nat)
    requires IsPowerOfTwo(n) && re.Length == im.Length == n && re != im
    modifies re, im
    ensures re[..] == Reversed(old(re[..])) && im[..] == Reversed(old(im[..]))
  {
    hide Rev, Reversed, SwappedBelow;
    ghost var re0, im0 := re[..], im[..];
    var i, j := 1, 0;
    NothingBelowOne(re0);
    NothingBelowOne(im0);
    while i < n
      invariant 1 <= i <= n && j == Rev(n, i - 1)
      invariant SwappedBelow(re[..], re0, i) && SwappedBelow(im[..], im0, i)
    {
      j := Advance(n, i, j);
      SwapStep(re[..], re0, i, j);
      SwapStep(im[..], im0, i, j);
      if i < j {
        ghost var re1, im1 := re[..], im[..];
        re[i], re[j] := re[j], re[i];
        im[i], im[j] := im[j], im[i];
        assert re[..] == re1[i := re1[j]][j := re1[i]];
        assert im[..] == im1[i := im1[j]][j := im1[i]];
      }
      i := i + 1;
    }
    SwappedAll(re[..], re0);
    SwappedAll(im[..], im0);
  }

  lemma SwappedAll(now: seq<real>, was: seq<real>)
    requires |now| == |was| && IsPowerOfTwo(|was|) && SwappedBelow(now, was, |was|)
    ensures now == Reversed(was)
  {
    hide Rev;
    forall k | 0 <= k < |was|
      ensures now[k] == Reversed(was)[k]
    {
      ReversedAt(was, k);
    }
  }

  /** Index 0 is its own reversal, so the loop may start at 1. */
  lemma NothingBelowOne(was: seq<real>)
    requires IsPowerOfTwo(|was|)
    ensures Rev(|was|, 0) == 0 && SwappedBelow(was, was, 1)
  {
    hide Rev;
    RevZero(|was|);
    forall k | 0 <= k < |was| && Rev(|was|, k) == 0
      ensures k == 0
    {
      RevInvolution(|was|, k);
    }
  }

  lemma {:induction false} RevZero(n: nat)
    requires IsPowerOfTwo(n)
    ensures Rev(n, 0) == 0
    decreases n
  {
    if n == 1 {
    } else {
      RevZero(n / 2);
    }
  }

  /** What visiting index `i` has to do to one array. */
  lemma SwapStep(now: seq<real>, was: seq<real>, i: nat, j: nat)
    requires |now| == |was| && IsPowerOfTwo(|was|) && i < |was| && j == Rev(|was|, i)
    requires SwappedBelow(now, was, i)
    ensures i < j ==> SwappedBelow(now[i := now[j]][j := now[i]], was, i + 1)
    ensures i >= j ==> SwappedBelow(now, was, i + 1)
  {
    hide Rev;
    var n := |was|;
    RevInvolution(n, i);
    forall k | 0 <= k < n && Rev(n, k) == i
      ensures k == j
    {
      RevInvolution(n, k);
    }
  }
}
