// The generator of axis_ready_gate.vhd and the orbit of its seed.
module Xorshift {
  const SEED: bv32 := 0x2545F491

  function Xor(x: bv32, y: bv32): bv32 {
    x ^ y
  }

  function Shl5(x: bv32): bv32 {
    x << 5
  }

  function Shl10(x: bv32): bv32 {
    x << 10
  }

  function Shl13(x: bv32): bv32 {
    x << 13
  }

  function Shl20(x: bv32): bv32 {
    x << 20
  }

  function Shl26(x: bv32): bv32 {
    x << 26
  }

  function Shr17(x: bv32): bv32 {
    x >> 17
  }

  function Next(x: bv32): bv32 {
    var a := Xor(x, Shl13(x));
    var b := Xor(a, Shr17(a));
    Xor(b, Shl5(b))
  }

  /** Each stage x ^ (x << k) done twice is x ^ (x << 2k), so enough repetitions cancel it. */
  function Undo(y: bv32): bv32 {
    var a := Xor(y, Shl5(y));
    var b := Xor(a, Shl10(a));
    var c := Xor(b, Shl20(b));
    var d := Xor(c, Shr17(c));
    var e := Xor(d, Shl13(d));
    Xor(e, Shl26(e))
  }

  /** The generator has an explicit inverse. */
  lemma Inverse(x: bv32)
    ensures Undo(Next(x)) == x
  {
    hide Xor, Shl5, Shl10, Shl13, Shl20, Shl26, Shr17;
    var a := Xor(x, Shl13(x));
    var b := Xor(a, Shr17(a));
    UndoShl5(b);
    UndoShr17(a);
    UndoShl13(x);
  }

  lemma UndoShl5(x: bv32)
    ensures var s := Xor(x, Shl5(x));
            var a := Xor(s, Shl5(s));
            var b := Xor(a, Shl10(a));
            Xor(b, Shl20(b)) == x
  {
    hide Xor, Shl5, Shl10, Shl20;
    Shl5Laws(x);
    Telescope(x, Shl5(x), Shl10(x));
    Shl10Laws(x);
    Telescope(x, Shl10(x), Shl20(x));
    Shl20Laws(x);
    Cancel(x, Shl20(x));
  }

  lemma UndoShr17(x: bv32)
    ensures var s := Xor(x, Shr17(x));
            Xor(s, Shr17(s)) == x
  {
    hide Xor, Shr17;
    Shr17Laws(x);
    Cancel(x, Shr17(x));
  }

  lemma UndoShl13(x: bv32)
    ensures var s := Xor(x, Shl13(x));
            var a := Xor(s, Shl13(s));
            Xor(a, Shl26(a)) == x
  {
    hide Xor, Shl13, Shl26;
    Shl13Laws(x);
    Telescope(x, Shl13(x), Shl26(x));
    Shl26Laws(x);
    Cancel(x, Shl26(x));
  }

  lemma Telescope(a: bv32, b: bv32, c: bv32)
    ensures Xor(Xor(a, b), Xor(b, c)) == Xor(a, c)
  {
  }

  lemma Cancel(a: bv32, b: bv32)
    ensures Xor(Xor(a, b), b) == a
  {
  }

  // A shift distributes over xor, and composes with itself until nothing is left.

  lemma Shl5Laws(x: bv32)
    ensures Shl5(Xor(x, Shl5(x))) == Xor(Shl5(x), Shl10(x))
  {
  }

  lemma Shl10Laws(x: bv32)
    ensures Shl10(Xor(x, Shl10(x))) == Xor(Shl10(x), Shl20(x))
  {
  }

  lemma Shl13Laws(x: bv32)
    ensures Shl13(Xor(x, Shl13(x))) == Xor(Shl13(x), Shl26(x))
  {
  }

  lemma Shl20Laws(x: bv32)
    ensures Shl20(Xor(x, Shl20(x))) == Shl20(x)
  {
  }

  lemma Shl26Laws(x: bv32)
    ensures Shl26(Xor(x, Shl26(x))) == Shl26(x)
  {
  }

  lemma Shr17Laws(x: bv32)
    ensures Shr17(Xor(x, Shr17(x))) == Shr17(x)
  {
  }

  lemma NextInjective(x: bv32, y: bv32)
    requires Next(x) == Next(y)
    ensures x == y
  {
    Inverse(x);
    Inverse(y);
  }

  function Orbit(x: bv32, n: nat): bv32 {
    if n == 0 then x else Next(Orbit(x, n - 1))
  }

  lemma {:induction false} OrbitAdd(x: bv32, m: nat, n: nat)
    ensures Orbit(Orbit(x, m), n) == Orbit(x, m + n)
  {
    hide Next;
    if n != 0 {
      OrbitAdd(x, m, n - 1);
    }
  }

  lemma ZeroFixed(x: bv32)
    requires Next(x) == 0
    ensures x == 0
  {
    assert Next(0) == 0;
    NextInjective(x, 0);
  }

  /** A generator seeded with a nonzero word never falls into the fixed point zero. */
  lemma {:induction false} NeverZero(x: bv32, n: nat)
    requires x != 0
    ensures Orbit(x, n) != 0
  {
    if n != 0 {
      NeverZero(x, n - 1);
      if Orbit(x, n) == 0 {
        ZeroFixed(Orbit(x, n - 1));
      }
    }
  }

  function Upto(n: nat): set<nat> {
    if n == 0 then {} else Upto(n - 1) + {n - 1}
  }

  lemma {:induction false} UptoHolds(n: nat, v: nat)
    ensures v in Upto(n) <==> v < n
    ensures |Upto(n)| == n
  {
    if n != 0 {
      UptoHolds(n - 1, v);
      UptoHolds(n - 1, n - 1);
    }
  }

  /** The words of the first n steps, as numbers. */
  function Visited(x: bv32, n: nat): set<nat> {
    if n == 0 then {} else Visited(x, n - 1) + {Orbit(x, n - 1) as nat}
  }

  lemma SameWord(x: bv32, y: bv32)
    requires x as nat == y as nat
    ensures x == y
  {
    assert x == (x as nat) as bv32;
  }

  lemma {:induction false} VisitedBy(x: bv32, n: nat, y: bv32) returns (i: nat)
    requires y as nat in Visited(x, n)
    ensures i < n && Orbit(x, i) == y
  {
    hide Next;
    if y as nat == Orbit(x, n - 1) as nat {
      SameWord(y, Orbit(x, n - 1));
      i := n - 1;
    } else {
      i := VisitedBy(x, n - 1, y);
    }
  }

  lemma InRange(x: bv32, words: nat)
    requires words == 0x1_0000_0000
    ensures x as nat in Upto(words)
  {
    UptoHolds(words, x as nat);
  }

  lemma {:induction false} VisitedBounded(x: bv32, n: nat, words: nat)
    requires words == 0x1_0000_0000
    ensures Visited(x, n) <= Upto(words)
  {
    hide Next, Upto;
    if n != 0 {
      VisitedBounded(x, n - 1, words);
      InRange(Orbit(x, n - 1), words);
    }
  }

  /** Until the orbit first comes back to its start, it visits a new word at every step. */
  lemma {:induction false} NoReturnNoRepeat(x: bv32, n: nat)
    requires forall p: nat | 0 < p < n :: Orbit(x, p) != x
    ensures |Visited(x, n)| == n
  {
    hide Next;
    if n != 0 {
      NoReturnNoRepeat(x, n - 1);
      if Orbit(x, n - 1) as nat in Visited(x, n - 1) {
        var i := VisitedBy(x, n - 1, Orbit(x, n - 1));
        StepBack(x, i, n - 1);
      }
    }
  }

  /** Equal words at two times mean the orbit was back at its start after their difference. */
  lemma {:induction false} StepBack(x: bv32, i: nat, j: nat)
    requires i < j && Orbit(x, i) == Orbit(x, j)
    ensures Orbit(x, j - i) == x
  {
    hide Next;
    if i != 0 {
      NextInjective(Orbit(x, i - 1), Orbit(x, j - 1));
      StepBack(x, i - 1, j - 1);
    }
  }

  /** The orbit of every word is a cycle: injectivity and 2^32 words leave no other way. */
  lemma Periodic(x: bv32) returns (p: nat)
    ensures p > 0 && Orbit(x, p) == x
  {
    hide Next;
    var words: nat := 0x1_0000_0000;
    var n := words + 1;
    if forall q: nat | 0 < q < n :: Orbit(x, q) != x {
      NoReturnNoRepeat(x, n);
      VisitedBounded(x, n, words);
      UptoHolds(words, 0);
      SubsetSize(Visited(x, n), Upto(words));
    }
    p :| 0 < p < n && Orbit(x, p) == x;
  }

  lemma {:induction false} SubsetSize(a: set<nat>, b: set<nat>)
    requires a <= b
    ensures |a| <= |b|
  {
    if a != {} {
      var x :| x in a;
      SubsetSize(a - {x}, b - {x});
    }
  }

  /** Every word of the orbit comes back after any time. */
  lemma {:induction false} Recurs(x: bv32, k: nat, after: nat) returns (t: nat)
    ensures t >= after && Orbit(x, t) == Orbit(x, k)
  {
    hide Next;
    if after <= k {
      t := k;
    } else {
      var p := Periodic(Orbit(x, k));
      OrbitAdd(x, k, p);
      t := Recurs(x, k, after - 1);
      if t < after {
        OrbitAdd(x, k, p);
        OrbitAdd(x, t, p);
        t := t + p;
      }
    }
  }

  /** The 16 bits compared against the threshold. */
  function Draw(x: bv32): nat {
    ((x >> 16) as bv16) as nat
  }

  /** The first words of the generator, so that its shifts and seed are what they are. */
  lemma FirstWords()
    ensures Orbit(SEED, 0) == 0x2545_F491 && Orbit(SEED, 1) == 0xE124_B63A
    ensures Orbit(SEED, 2) == 0x8B9A_74AB
  {
  }

  /** The fifth draw after the seed is below every threshold from one percent up. */
  lemma FifthDraw()
    ensures Draw(Orbit(SEED, 4)) < 655
  {
    assert Next(SEED) == Next(0x2545F491);
  }

  /** From fifteen percent up the very first draw already opens the gate. */
  lemma FirstDraw()
    ensures Draw(Orbit(SEED, 0)) < 9830
  {
  }
}
