/** How a buffer grows over a run of requests, and what that costs. */
module Growth {
  import opened Bits

  /** The length of the buffer, the bytes copied so far, the number of reallocations, and the largest request. */
  datatype Tally = Tally(length: nat, copied: nat, growths: nat, peak: nat)

  function Max(a: nat, b: nat): nat {
    if a < b then b else a
  }

  /** The least power of two at or above `x`. */
  function LeastPow2(x: nat): (r: nat)
    ensures r >= 1
  {
    if x <= 1 then 1 else 2 * LeastPow2((x + 1) / 2)
  }

  /** A request for `needed` bytes in all: a buffer that is too short is copied to one of the next power of two. */
  function Serve(t: Tally, needed: nat): Tally {
    if needed <= t.length then t.(peak := Max(t.peak, needed))
    else Tally(LeastPow2(needed), t.copied + t.length, t.growths + 1, Max(t.peak, needed))
  }

  /** After some requests to a buffer that starts with `initial` bytes. */
  function After(initial: nat, asked: seq<nat>): Tally {
    if asked == [] then Tally(initial, 0, 0, 0) else Serve(After(initial, asked[..|asked| - 1]), asked[|asked| - 1])
  }

  lemma AfterOneMore(initial: nat, asked: seq<nat>, needed: nat)
    ensures After(initial, asked + [needed]) == Serve(After(initial, asked), needed)
  {
    assert (asked + [needed])[..|asked|] == asked;
  }

  lemma {:induction false} LeastPow2Is(x: nat)
    ensures IsPow2(LeastPow2(x)) && LeastPow2(x) >= x && (x >= 1 ==> LeastPow2(x) <= 2 * x - 1)
    ensures forall j: nat :: Pow2(j) >= x ==> Pow2(j) >= LeastPow2(x)
  {
    if x <= 1 {
      assert Pow2(0) == 1;
    } else {
      var h := (x + 1) / 2;
      LeastPow2Is(h);
      var i: nat :| LeastPow2(h) == Pow2(i);
      assert Pow2(i + 1) == LeastPow2(x);
      forall j: nat | Pow2(j) >= x
        ensures Pow2(j) >= LeastPow2(x)
      {
        assert j > 0 && Pow2(j) == 2 * Pow2(j - 1);
      }
    }
  }

  /** There is only one least power of two. */
  lemma LeastPow2Only(x: nat, r: nat)
    requires IsPow2(r) && r >= x && forall j: nat :: Pow2(j) >= x ==> Pow2(j) >= r
    ensures r == LeastPow2(x)
  {
    LeastPow2Is(x);
  }

  lemma NextPower(x: nat, y: nat)
    requires IsPow2(x) && IsPow2(y) && x < y
    ensures 2 * x <= y
  {
    var i: nat :| x == Pow2(i);
    var j: nat :| y == Pow2(j);
    Monotone(j, i);
    Monotone(i + 1, j);
  }

  lemma {:induction false} Monotone(i: nat, j: nat)
    ensures i <= j ==> Pow2(i) <= Pow2(j)
  {
    if i < j {
      Monotone(i, j - 1);
    }
  }

  /** The peak is the largest of the requests. */
  lemma {:induction false} PeakIsLargest(initial: nat, asked: seq<nat>)
    ensures var peak := After(initial, asked).peak;
            (forall k :: 0 <= k < |asked| ==> asked[k] <= peak) && (asked != [] ==> peak in asked || peak == 0)
  {
    if asked != [] {
      PeakIsLargest(initial, asked[..|asked| - 1]);
    }
  }

  /**
    Over every run of requests the buffer keeps its first length or becomes less than twice as
    long as the largest request, and all the copying together costs less than the first and
    the last length.
   */
  lemma {:induction false} Amortised(initial: nat, asked: seq<nat>)
    ensures var t := After(initial, asked);
            && (t.growths == 0 ==> t.length == initial && t.copied == 0)
            && (t.growths > 0 ==> IsPow2(t.length) && t.length < 2 * t.peak && t.copied < initial + t.length)
  {
    if asked != [] {
      var t, needed := After(initial, asked[..|asked| - 1]), asked[|asked| - 1];
      Amortised(initial, asked[..|asked| - 1]);
      if needed > t.length {
        LeastPow2Is(needed);
        if t.growths > 0 {
          NextPower(t.length, LeastPow2(needed));
        }
      }
    }
  }
}
