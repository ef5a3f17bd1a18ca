// Reading a binary PGM: the client's pgm_token and pgm_load, and the sweep's pgm_geom and bucket_of,
// two programs that must see the same numbers in the same file.
module Pgm {
  import opened Bytes
  import opened Proto
  import opened Admission

  const HASH: Byte := 35
  const NEWLINE: Byte := 10

  predicate IsSpace(c: Byte) {
    c == 32 || 9 <= c <= 13
  }

  predicate IsDigit(c: Byte) {
    48 <= c <= 57
  }

  predicate AllDigits(s: seq<Byte>) {
    forall k | 0 <= k < |s| :: IsDigit(s[k])
  }

  /** The number a numeral stands for. */
  function Numeral(s: seq<Byte>): nat {
    if s == [] then 0 else 10 * Numeral(s[..|s| - 1]) + (if IsDigit(s[|s| - 1]) then s[|s| - 1] - 48 else 0)
  }

  const TWO_64: nat := 0x1_0000_0000_0000_0000

  /** Just after the next newline at or after i, or at the end of the file. */
  function LineEnd(s: seq<Byte>, i: nat): (j: nat)
    requires i <= |s|
    ensures i <= j <= |s|
    decreases |s| - i
  {
    if i == |s| then i else if s[i] == NEWLINE then i + 1 else LineEnd(s, i + 1)
  }

  /** The first byte at or after i outside white space and comments. */
  function Skip(s: seq<Byte>, i: nat): (j: nat)
    requires i <= |s|
    ensures i <= j <= |s| && (j < |s| ==> !IsSpace(s[j]) && s[j] != HASH)
    decreases |s| - i
  {
    if i == |s| then i
    else if s[i] == HASH then Skip(s, LineEnd(s, i + 1))
    else if IsSpace(s[i]) then Skip(s, i + 1)
    else i
  }

  /** The end of the digits that start at i. */
  function DigitsEnd(s: seq<Byte>, i: nat): (j: nat)
    requires i <= |s|
    ensures i <= j <= |s| && AllDigits(s[i..j]) && (j < |s| ==> !IsDigit(s[j]))
    decreases |s| - i
  {
    if i < |s| && IsDigit(s[i]) then
      var j := DigitsEnd(s, i + 1);
      assert s[i..j] == [s[i]] + s[i + 1..j];
      j
    else i
  }

  // --- the client ---

  datatype Token = NoToken | Token(start: nat, end: nat)

  /** Where the C program finds its next numeral. */
  function TokenAt(s: seq<Byte>, i: nat): (t: Token)
    requires i <= |s|
    ensures t.Token? ==> i <= t.start < t.end <= |s|
  {
    var j := Skip(s, i);
    if j == |s| || !IsDigit(s[j]) then NoToken else Token(j, DigitsEnd(s, j))
  }

  /** The byte after the numeral is consumed too, whatever it is. */
  function After(s: seq<Byte>, t: Token): (j: nat)
    requires t.Token? && t.end <= |s|
    ensures t.end <= j <= |s|
  {
    if t.end < |s| then t.end + 1 else t.end
  }

  /** The first loop of pgm_token: past white space and comments. */
  method SkipBlanks(s: seq<Byte>, pos: nat) returns (next: nat)
    requires pos <= |s|
    ensures next == Skip(s, pos)
  {
    next := pos;
    while next < |s| && (s[next] == HASH || IsSpace(s[next]))
      invariant next <= |s| && Skip(s, pos) == Skip(s, next)
    {
      if s[next] == HASH {
        ghost var here := next + 1;
        next := next + 1;
        while next < |s| && s[next] != NEWLINE
          invariant here <= next <= |s| && LineEnd(s, here) == LineEnd(s, next)
        {
          next := next + 1;
        }
        if next < |s| {
          next := next + 1;
        }
      } else {
        next := next + 1;
      }
    }
  }

  /** pgm_token: an unsigned long is 64 bits wide. */
  method PgmToken(s: seq<Byte>, pos: nat) returns (ok: bool, value: nat, next: nat)
    requires pos <= |s|
    ensures next <= |s|
    ensures var t := TokenAt(s, pos);
            && (ok <==> t.Token?)
            && (ok ==> value == Numeral(s[t.start..t.end]) % TWO_64 && next == After(s, t))
  {
    hide Numeral, Skip;
    next := SkipBlanks(s, pos);
    if next == |s| || !IsDigit(s[next]) {
      return false, 0, next;
    }
    ghost var start := next;
    value := 0;
    NumeralOf(s[start..next]);
    while next < |s| && IsDigit(s[next])
      invariant start <= next <= |s| && DigitsEnd(s, start) == DigitsEnd(s, next)
      invariant value == Numeral(s[start..next]) % TWO_64
    {
      NumeralNext(s, start, next);
      value := (value * 10 + (s[next] - 48)) % TWO_64;
      next := next + 1;
    }
    if next < |s| {
      next := next + 1;
    }
    return true, value, next;
  }

  lemma NumeralOf(s: seq<Byte>)
    requires s == []
    ensures Numeral(s) == 0
  {
  }

  lemma NumeralNext(s: seq<Byte>, start: nat, i: nat)
    requires start <= i < |s| && IsDigit(s[i])
    ensures Numeral(s[start..i + 1]) == 10 * Numeral(s[start..i]) + (s[i] - 48)
    ensures (Numeral(s[start..i]) % TWO_64 * 10 + (s[i] - 48)) % TWO_64 == Numeral(s[start..i + 1]) % TWO_64
  {
    assert s[start..i + 1][..i - start] == s[start..i];
    WrapTen(Numeral(s[start..i]), s[i] - 48);
  }

  lemma WrapTen(x: nat, d: nat)
    ensures (x % TWO_64 * 10 + d) % TWO_64 == (10 * x + d) % TWO_64
  {
    var q := x / TWO_64;
    assert 10 * x + d == (x % TWO_64 * 10 + d) + 10 * q * TWO_64;
    ModPlus(x % TWO_64 * 10 + d, 10 * q);
  }

  lemma ModPlus(a: nat, k: nat)
    ensures (a + k * TWO_64) % TWO_64 == a % TWO_64
  {
    var r, q := a % TWO_64, a / TWO_64;
    assert a + k * TWO_64 == (q + k) * TWO_64 + r;
  }

  // --- the sweep ---

  /** What pgm_geom has after some bytes. */
  datatype Scan = Truncated | Scan(toks: seq<seq<Byte>>, next: nat)

  /** The loop of pgm_geom: a comment does not end a token, only white space does. */
  function Geom(s: seq<Byte>, i: nat, tok: seq<Byte>, toks: seq<seq<Byte>>): Scan
    requires i <= |s| && |toks| <= 3
    decreases |s| - i
  {
    if |toks| == 3 then Scan(toks, i)
    else if i == |s| then Truncated
    else if s[i] == HASH then Geom(s, LineEnd(s, i + 1), tok, toks)
    else if !IsSpace(s[i]) then Geom(s, i + 1, tok + [s[i]], toks)
    else if tok == [] then Geom(s, i + 1, [], toks)
    else Geom(s, i + 1, [], toks + [tok])
  }

  method PgmGeom(s: seq<Byte>, pos: nat) returns (ok: bool, toks: seq<seq<Byte>>, next: nat)
    requires pos <= |s|
    ensures var g := Geom(s, pos, [], []);
            && (ok <==> g.Scan?)
            && (ok ==> toks == g.toks && next == g.next)
  {
    toks, next := [], pos;
    var tok: seq<Byte> := [];
    while |toks| < 3
      invariant |toks| <= 3 && next <= |s|
      invariant Geom(s, pos, [], []) == Geom(s, next, tok, toks)
      decreases |s| - next
    {
      if next == |s| {
        return false, toks, next;
      }
      var c := s[next];
      next := next + 1;
      if c == HASH {
        ghost var here := next;
        while next < |s| && s[next] != NEWLINE
          invariant here <= next <= |s| && LineEnd(s, here) == LineEnd(s, next)
        {
          next := next + 1;
        }
        if next < |s| {
          next := next + 1;
        }
        continue;
      }
      if IsSpace(c) {
        if tok != [] {
          toks, tok := toks + [tok], [];
        }
        continue;
      }
      tok := tok + [c];
    }
    ok := true;
  }

  // --- agreement, token by token ---

  /** One token of the sweep. */
  function Word(s: seq<Byte>, i: nat, tok: seq<Byte>): (r: Scan)
    requires i <= |s|
    ensures r.Scan? ==> |r.toks| == 1 && i < r.next <= |s|
    decreases |s| - i
  {
    if i == |s| then Truncated
    else if s[i] == HASH then Word(s, LineEnd(s, i + 1), tok)
    else if !IsSpace(s[i]) then Word(s, i + 1, tok + [s[i]])
    else if tok == [] then Word(s, i + 1, [])
    else Scan([tok], i + 1)
  }

  lemma {:induction false} GeomByWords(s: seq<Byte>, i: nat, tok: seq<Byte>, toks: seq<seq<Byte>>)
    requires i <= |s| && |toks| < 3
    ensures var w := Word(s, i, tok);
            Geom(s, i, tok, toks) == if w.Truncated? then Truncated else Geom(s, w.next, [], toks + w.toks)
    decreases |s| - i
  {
    if i == |s| {
    } else if s[i] == HASH {
      GeomByWords(s, LineEnd(s, i + 1), tok, toks);
    } else if !IsSpace(s[i]) {
      GeomByWords(s, i + 1, tok + [s[i]], toks);
    } else if tok == [] {
      GeomByWords(s, i + 1, [], toks);
    }
  }

  /** Behind the comments that follow each other from i on. */
  function Chain(s: seq<Byte>, i: nat): (j: nat)
    requires i <= |s|
    ensures i <= j <= |s| && (j < |s| ==> s[j] != HASH) && (j == i <==> i == |s| || s[i] != HASH)
    decreases |s| - i
  {
    if i < |s| && s[i] == HASH then Chain(s, LineEnd(s, i + 1)) else i
  }

  lemma {:induction false} WordChain(s: seq<Byte>, i: nat, tok: seq<Byte>)
    requires i <= |s|
    ensures Word(s, i, tok) == Word(s, Chain(s, i), tok)
    decreases |s| - i
  {
    if i < |s| && s[i] == HASH {
      WordChain(s, LineEnd(s, i + 1), tok);
    }
  }

  lemma {:induction false} WordGrows(s: seq<Byte>, i: nat, tok: seq<Byte>)
    requires i <= |s|
    ensures var w := Word(s, i, tok); w.Scan? ==> tok <= w.toks[0]
    decreases |s| - i
  {
    if i == |s| {
    } else if s[i] == HASH {
      WordGrows(s, LineEnd(s, i + 1), tok);
    } else if !IsSpace(s[i]) {
      WordGrows(s, i + 1, tok + [s[i]]);
    } else if tok == [] {
      WordGrows(s, i + 1, []);
    }
  }

  lemma {:induction false} WordSkips(s: seq<Byte>, i: nat)
    requires i <= |s|
    ensures Word(s, i, []) == Word(s, Skip(s, i), [])
    decreases |s| - i
  {
    if i < |s| && s[i] == HASH {
      WordSkips(s, LineEnd(s, i + 1));
    } else if i < |s| && IsSpace(s[i]) {
      WordSkips(s, i + 1);
    }
  }

  lemma {:induction false} WordDigits(s: seq<Byte>, i: nat, tok: seq<Byte>)
    requires i <= |s|
    ensures var j := DigitsEnd(s, i); Word(s, i, tok) == Word(s, j, tok + s[i..j])
    decreases |s| - i
  {
    if i < |s| && IsDigit(s[i]) {
      WordDigits(s, i + 1, tok + [s[i]]);
      var j := DigitsEnd(s, i + 1);
      assert tok + [s[i]] + s[i + 1..j] == tok + s[i..j];
    } else {
      assert tok + s[i..i] == tok;
    }
  }

  /** A word broken off at n, which is no digit, is whole exactly when white space comes behind the
      comments there. */
  lemma WordAt(s: seq<Byte>, n: nat, tok: seq<Byte>)
    requires n <= |s| && tok != []
    ensures var w := Word(s, n, tok); var e := Chain(s, n);
            && (w.Scan? && w.toks == [tok] <==> e < |s| && IsSpace(s[e]))
            && (e < |s| && IsSpace(s[e]) ==> w == Scan([tok], e + 1))
  {
    hide Chain;
    WordChain(s, n, tok);
    var e := Chain(s, n);
    if e < |s| && !IsSpace(s[e]) {
      WordGrows(s, e + 1, tok + [s[e]]);
    }
  }

  /** The C numeral is cut off by white space. */
  ghost predicate Spaced(s: seq<Byte>, t: Token) {
    t.Token? && t.end < |s| && IsSpace(s[t.end])
  }

  /** The C numeral ends, perhaps after comments stuck to it, at white space. */
  ghost predicate Closes(s: seq<Byte>, t: Token) {
    t.Token? && t.end <= |s| && Chain(s, t.end) < |s| && IsSpace(s[Chain(s, t.end)])
  }

  /** One token from the same place: the sweep's word is C's numeral exactly when that closes. */
  lemma SameWord(s: seq<Byte>, i: nat)
    requires i <= |s| && TokenAt(s, i).Token?
    ensures var t := TokenAt(s, i); var w := Word(s, i, []);
            && (w.Scan? && w.toks == [s[t.start..t.end]] <==> Closes(s, t))
            && (Closes(s, t) ==> w == Scan([s[t.start..t.end]], Chain(s, t.end) + 1))
  {
    hide Word, DigitsEnd, Chain;
    WordSkips(s, i);
    var t := TokenAt(s, i);
    WordDigits(s, t.start, []);
    assert [] + s[t.start..t.end] == s[t.start..t.end];
    WordAt(s, t.end, s[t.start..t.end]);
  }

  /** Nothing in the text of a comment, up to its newline, that C could stop at: white space, and perhaps
      another '#' after it. */
  predicate Blind(s: seq<Byte>, i: nat)
    requires i <= |s|
    decreases |s| - i
  {
    i < |s| && (s[i] == NEWLINE || s[i] == HASH || (IsSpace(s[i]) && Blind(s, i + 1)))
  }

  /** Past blind text C is where the sweep is: at the end of the line. Otherwise it stops inside. */
  lemma {:induction false} BlindSkips(s: seq<Byte>, i: nat)
    requires i <= |s|
    ensures Blind(s, i) ==> Skip(s, i) == Skip(s, LineEnd(s, i))
    ensures !Blind(s, i) ==> Skip(s, i) < LineEnd(s, i) || Skip(s, i) == |s|
    decreases |s| - i
  {
    if i < |s| && s[i] != NEWLINE && s[i] != HASH && IsSpace(s[i]) {
      BlindSkips(s, i + 1);
    }
  }

  lemma {:induction false} SkipChain(s: seq<Byte>, i: nat)
    requires i <= |s|
    ensures Skip(s, i) == Skip(s, Chain(s, i))
    ensures Chain(s, i) < |s| && IsSpace(s[Chain(s, i)]) ==> Skip(s, i) == Skip(s, Chain(s, i) + 1)
    decreases |s| - i
  {
    if i < |s| && s[i] == HASH {
      SkipChain(s, LineEnd(s, i + 1));
    }
  }

  // --- agreement on whole headers ---

  /** The three numerals as C finds them after the two magic bytes. */
  function First(s: seq<Byte>): Token
    requires |s| >= 2
  {
    TokenAt(s, 2)
  }

  function Second(s: seq<Byte>): Token
    requires |s| >= 2
  {
    if First(s).Token? then TokenAt(s, After(s, First(s))) else NoToken
  }

  function Third(s: seq<Byte>): Token
    requires |s| >= 2
  {
    if Second(s).Token? then TokenAt(s, After(s, Second(s))) else NoToken
  }

  function Lexeme(s: seq<Byte>, t: Token): seq<Byte>
    requires t.Token? && t.start <= t.end <= |s|
  {
    s[t.start..t.end]
  }

  /** The client's value of a numeral: an unsigned long wraps. */
  function Number(s: seq<Byte>, t: Token): nat
    requires t.Token? && t.start <= t.end <= |s|
  {
    Numeral(Lexeme(s, t)) % TWO_64
  }

  lemma {:induction false} GeomKeeps(s: seq<Byte>, i: nat, tok: seq<Byte>, toks: seq<seq<Byte>>)
    requires i <= |s| && |toks| <= 3
    ensures var g := Geom(s, i, tok, toks);
            g.Scan? ==> |g.toks| == 3 && toks <= g.toks && (|toks| < 3 ==> i < g.next)
    decreases |s| - i
  {
    if |toks| == 3 || i == |s| {
    } else if s[i] == HASH {
      GeomKeeps(s, LineEnd(s, i + 1), tok, toks);
    } else if !IsSpace(s[i]) {
      GeomKeeps(s, i + 1, tok + [s[i]], toks);
    } else if tok == [] {
      GeomKeeps(s, i + 1, [], toks);
    } else {
      GeomKeeps(s, i + 1, [], toks + [tok]);
    }
  }

  /** One more token on both sides, from the same place: the sweep goes on behind a numeral that closes,
      and has another token in its place for one that does not. */
  lemma OneToken(s: seq<Byte>, i: nat, toks: seq<seq<Byte>>)
    requires i <= |s| && |toks| < 3 && TokenAt(s, i).Token?
    ensures var t := TokenAt(s, i); var g := Geom(s, i, [], toks);
            if Closes(s, t) then g == Geom(s, Chain(s, t.end) + 1, [], toks + [Lexeme(s, t)])
            else g.Scan? ==> |g.toks| == 3 && g.toks[|toks|] != Lexeme(s, t)
  {
    hide Geom, Word, Chain;
    GeomByWords(s, i, [], toks);
    SameWord(s, i);
    var w := Word(s, i, []);
    if w.Scan? {
      GeomKeeps(s, w.next, [], toks + w.toks);
      assert (toks + w.toks)[|toks|] == w.toks[0];
    }
  }

  /** Both readers have the same numeral and go on from the same place: it ends at white space, or at
      comments with white space behind them, the first of which holds nothing that C could read. */
  ghost predicate InStep(s: seq<Byte>, t: Token) {
    Closes(s, t) && (Spaced(s, t) || Blind(s, t.end + 1))
  }

  lemma ChainStarts(s: seq<Byte>, i: nat)
    requires i < |s| && s[i] == HASH
    ensures Chain(s, i) == Chain(s, LineEnd(s, i + 1)) >= LineEnd(s, i + 1)
  {
  }

  lemma SameStart(s: seq<Byte>, i: nat, k: nat)
    requires i <= |s| && k <= |s| && Skip(s, i) == Skip(s, k)
    ensures TokenAt(s, i) == TokenAt(s, k)
  {
    hide Skip, DigitsEnd;
  }

  lemma GoesOn(s: seq<Byte>, t: Token)
    requires InStep(s, t)
    ensures t.end < |s| && After(s, t) == t.end + 1
    ensures TokenAt(s, After(s, t)) == TokenAt(s, Chain(s, t.end) + 1)
  {
    hide Skip, Chain, Blind, TokenAt, LineEnd, IsSpace;
    if !Spaced(s, t) {
      ChainStarts(s, t.end);
      BlindSkips(s, t.end + 1);
      SkipChain(s, LineEnd(s, t.end + 1));
      SameStart(s, t.end + 1, Chain(s, t.end) + 1);
    } else {
      SpacedChain(s, t);
    }
  }

  lemma SpacedChain(s: seq<Byte>, t: Token)
    requires Spaced(s, t)
    ensures Chain(s, t.end) == t.end
  {
  }

  lemma {:induction false} DigitsInLine(s: seq<Byte>, i: nat)
    requires i < |s| && LineEnd(s, i) < |s|
    ensures DigitsEnd(s, i) < LineEnd(s, i)
    decreases |s| - i
  {
    if IsDigit(s[i]) && i + 1 < |s| {
      LineGrows(s, i + 1);
      DigitsInLine(s, i + 1);
    }
  }

  lemma LineGrows(s: seq<Byte>, i: nat)
    requires i < |s|
    ensures i < LineEnd(s, i)
  {
  }

  lemma {:induction false} SkipInLine(s: seq<Byte>, i: nat)
    requires i <= |s|
    ensures Skip(s, i) < LineEnd(s, i) ==> LineEnd(s, Skip(s, i)) == LineEnd(s, i)
    decreases |s| - i
  {
    if i < |s| && s[i] == HASH {
      LaterLine(s, LineEnd(s, i + 1));
    } else if i < |s| && s[i] == NEWLINE {
      LaterLine(s, i + 1);
    } else if i < |s| && IsSpace(s[i]) {
      SkipInLine(s, i + 1);
    }
  }

  lemma LaterLine(s: seq<Byte>, i: nat)
    requires i <= |s|
    ensures Skip(s, i) >= i
  {
  }

  lemma {:induction false} DigitsStayInLine(s: seq<Byte>, i: nat)
    requires i < |s| && DigitsEnd(s, i) < LineEnd(s, i)
    ensures LineEnd(s, DigitsEnd(s, i)) == LineEnd(s, i)
    decreases |s| - i
  {
    if IsDigit(s[i]) {
      LineOfNext(s, i);
      if i + 1 < |s| {
        DigitsStayInLine(s, i + 1);
      }
    }
  }

  lemma LineOfNext(s: seq<Byte>, i: nat)
    requires i < |s| && s[i] != NEWLINE
    ensures LineEnd(s, i) == LineEnd(s, i + 1)
  {
  }

  /** A numeral that C finds before the end of a line ends in it, and C goes on in it or right behind. */
  lemma ReadsInLine(s: seq<Byte>, i: nat)
    requires i <= |s| && LineEnd(s, i) < |s| && TokenAt(s, i).Token? && TokenAt(s, i).start < LineEnd(s, i)
    ensures var t := TokenAt(s, i);
            && t.end < |s| && After(s, t) <= LineEnd(s, i)
            && (After(s, t) < LineEnd(s, i) ==> LineEnd(s, After(s, t)) == LineEnd(s, i))
  {
    hide Skip, DigitsEnd, LineEnd;
    var t := TokenAt(s, i);
    SkipInLine(s, i);
    DigitsInLine(s, t.start);
    DigitsStayInLine(s, t.start);
    if s[t.end] == NEWLINE {
      NewlineEnds(s, t.end);
    } else {
      LineOfNext(s, t.end);
    }
  }

  lemma NewlineEnds(s: seq<Byte>, i: nat)
    requires i < |s| && s[i] == NEWLINE
    ensures LineEnd(s, i) == i + 1
  {
  }

  /** Where a comment closes: its line ends inside the file, and the sweep goes on behind it. */
  lemma LineInside(s: seq<Byte>, t: Token)
    requires Closes(s, t) && !Spaced(s, t)
    ensures t.end < |s| && s[t.end] == HASH && After(s, t) == t.end + 1
    ensures LineEnd(s, t.end + 1) <= Chain(s, t.end) < |s|
    ensures Skip(s, LineEnd(s, t.end + 1)) == Skip(s, Chain(s, t.end) + 1)
  {
    hide Skip, Chain, LineEnd;
    ChainStarts(s, t.end);
    SkipChain(s, LineEnd(s, t.end + 1));
  }

  /** C reads a numeral inside the comment: then it stops no later than where that line ends, or it is at
      the numeral that the sweep reads next. */
  lemma StopsInside(s: seq<Byte>, t: Token)
    requires Closes(s, t) && !InStep(s, t) && TokenAt(s, After(s, t)).Token?
    ensures t.end < |s| && After(s, TokenAt(s, After(s, t))) <= LineEnd(s, t.end + 1) < |s|
    ensures var t2 := TokenAt(s, After(s, t)); var c := After(s, t2); var l := LineEnd(s, t.end + 1);
            c < l ==> LineEnd(s, c) == l
  {
    hide Skip, Chain, Blind, DigitsEnd, LineEnd;
    LineInside(s, t);
    BlindSkips(s, t.end + 1);
    ReadsInLine(s, t.end + 1);
  }

  lemma ThirdBehind(s: seq<Byte>, t: Token)
    requires Closes(s, t) && !InStep(s, t) && TokenAt(s, After(s, t)).Token?
    requires TokenAt(s, After(s, TokenAt(s, After(s, t)))).Token?
    ensures var t3 := TokenAt(s, After(s, TokenAt(s, After(s, t)))); var k := Chain(s, t.end) + 1;
            k <= |s| && (After(s, t3) <= k || (t3.start == Skip(s, k) && t3.end == DigitsEnd(s, Skip(s, k))))
  {
    hide Skip, Chain, Blind, DigitsEnd, LineEnd;
    LineInside(s, t);
    StopsInside(s, t);
    var l := LineEnd(s, t.end + 1);
    var c := After(s, TokenAt(s, After(s, t)));
    if c < l {
      BlindSkips(s, c);
      if TokenAt(s, c).start < l {
        ReadsInLine(s, c);
      }
    }
  }

  /** The sweep's next word ends behind the digits it starts with. */
  lemma WordBehind(s: seq<Byte>, k: nat)
    requires k <= |s|
    ensures Word(s, k, []).Scan? ==> Word(s, k, []).next > DigitsEnd(s, Skip(s, k))
  {
    hide Word, Skip, DigitsEnd;
    WordSkips(s, k);
    WordDigits(s, Skip(s, k), []);
  }

  /** With two tokens to go the sweep ends behind a C that has read one of its numerals elsewhere. */
  lemma TwoAhead(s: seq<Byte>, t: Token, toks: seq<seq<Byte>>)
    requires Closes(s, t) && !InStep(s, t) && TokenAt(s, After(s, t)).Token? && |toks| == 1
    requires TokenAt(s, After(s, TokenAt(s, After(s, t)))).Token?
    ensures var t3 := TokenAt(s, After(s, TokenAt(s, After(s, t)))); var g := Geom(s, Chain(s, t.end) + 1, [], toks);
            g.Scan? ==> g.next > After(s, t3)
  {
    hide Geom, Word, TokenAt, Skip, Chain, Blind, DigitsEnd;
    var k := Chain(s, t.end) + 1;
    ThirdBehind(s, t);
    GeomByWords(s, k, [], toks);
    var w := Word(s, k, []);
    WordBehind(s, k);
    if w.Scan? {
      GeomKeeps(s, w.next, [], toks + w.toks);
    }
  }

  /** So it does with one token to go. */
  lemma OneAhead(s: seq<Byte>, t: Token, toks: seq<seq<Byte>>)
    requires Closes(s, t) && !InStep(s, t) && TokenAt(s, After(s, t)).Token? && |toks| == 2
    ensures var g := Geom(s, Chain(s, t.end) + 1, [], toks); g.Scan? ==> g.next > After(s, TokenAt(s, After(s, t)))
  {
    hide Geom, TokenAt, Skip, Chain, Blind;
    StopsInside(s, t);
    LineInside(s, t);
    GeomKeeps(s, Chain(s, t.end) + 1, [], toks);
  }

  /** Client and sweep see the same three numerals and stop at the same byte. */
  ghost predicate Agree(s: seq<Byte>)
    requires |s| >= 2
  {
    && Third(s).Token?
    && Geom(s, 2, [], []) == Scan([Lexeme(s, First(s)), Lexeme(s, Second(s)), Lexeme(s, Third(s))], After(s, Third(s)))
  }

  /** They do exactly if the third of C's numerals ends at white space, and each of the first two does, or
      is followed by comments and then white space, the first comment holding nothing but white space up
      to its end or to another '#'. */
  lemma HeadersAgree(s: seq<Byte>)
    requires |s| >= 2
    ensures Agree(s) <==> InStep(s, First(s)) && InStep(s, Second(s)) && Spaced(s, Third(s))
  {
    hide Geom, TokenAt, Chain, Blind, InStep;
    if First(s).Token? {
      OneToken(s, 2, []);
      ClosesFirst(s, First(s));
      if Closes(s, First(s)) {
        var a := Lexeme(s, First(s));
        assert [] + [a] == [a];
        AgreeRest(s, First(s), a);
      }
    } else {
      ClosesFirst(s, First(s));
    }
  }

  lemma ClosesFirst(s: seq<Byte>, t: Token)
    ensures InStep(s, t) ==> Closes(s, t)
    ensures Spaced(s, t) ==> Closes(s, t) && Chain(s, t.end) == t.end
    ensures Closes(s, t) && !Spaced(s, t) ==> Chain(s, t.end) > t.end
  {
    hide Blind;
  }

  /** From the second numeral on. */
  lemma AgreeRest(s: seq<Byte>, t: Token, a: seq<Byte>)
    requires |s| >= 2 && t == First(s) && Closes(s, t) && a == Lexeme(s, t)
    requires Geom(s, 2, [], []) == Geom(s, Chain(s, t.end) + 1, [], [a])
    ensures Agree(s) <==> InStep(s, t) && InStep(s, Second(s)) && Spaced(s, Third(s))
  {
    hide Geom, TokenAt, Chain, Blind, InStep;
    ClosesFirst(s, Second(s));
    if !InStep(s, t) {
      if Third(s).Token? {
        TwoAhead(s, t, [a]);
      }
    } else {
      GoesOn(s, t);
      if Second(s).Token? {
        OneToken(s, Chain(s, t.end) + 1, [a]);
        if Closes(s, Second(s)) {
          var b := Lexeme(s, Second(s));
          assert [a] + [b] == [a, b];
          AgreeLast(s, a, b);
        }
      }
    }
  }

  /** From the third on. */
  lemma AgreeLast(s: seq<Byte>, a: seq<Byte>, b: seq<Byte>)
    requires |s| >= 2 && First(s).Token? && Second(s).Token? && Closes(s, Second(s))
    requires a == Lexeme(s, First(s)) && b == Lexeme(s, Second(s))
    requires Geom(s, 2, [], []) == Geom(s, Chain(s, Second(s).end) + 1, [], [a, b])
    ensures Agree(s) <==> InStep(s, Second(s)) && Spaced(s, Third(s))
  {
    hide Geom, TokenAt, Chain, Blind, InStep;
    var k := Chain(s, Second(s).end) + 1;
    ClosesFirst(s, Third(s));
    if !InStep(s, Second(s)) {
      if Third(s).Token? {
        OneAhead(s, Second(s), [a, b]);
      }
    } else {
      GoesOn(s, Second(s));
      if Third(s).Token? {
        OneToken(s, k, [a, b]);
        if Closes(s, Third(s)) {
          var c := Lexeme(s, Third(s));
          assert [a, b] + [c] == [a, b, c];
          GeomDone(s, Chain(s, Third(s).end) + 1, [a, b, c]);
        }
      }
    }
  }

  lemma GeomDone(s: seq<Byte>, i: nat, toks: seq<seq<Byte>>)
    requires i <= |s| && |toks| == 3
    ensures Geom(s, i, [], toks) == Scan(toks, i)
  {
  }

  // --- printed headers ---

  function Decimal(n: nat): (d: seq<Byte>)
    ensures d != [] && AllDigits(d)
  {
    if n < 10 then [48 + n] else Decimal(n / 10) + [48 + n % 10]
  }

  lemma {:induction false} NumeralDecimal(n: nat)
    ensures Numeral(Decimal(n)) == n
  {
    if n < 10 {
      assert Decimal(n)[..0] == [];
    } else {
      NumeralDecimal(n / 10);
      assert Decimal(n)[..|Decimal(n)| - 1] == Decimal(n / 10);
    }
  }

  /** What may stand between numbers: a space, or a comment up to its newline. */
  datatype Blank = Space(c: Byte) | Comment(text: seq<Byte>)

  predicate White(c: Byte) {
    c in {9, 10, 11, 12, 13, 32}
  }

  predicate BlankOk(b: Blank) {
    if b.Space? then White(b.c) else 10 !in b.text
  }

  function PrintBlank(b: Blank): seq<Byte> {
    if b.Space? then [b.c] else [35] + b.text + [10]
  }

  function PrintBlanks(bs: seq<Blank>): seq<Byte> {
    if bs == [] then [] else PrintBlank(bs[0]) + PrintBlanks(bs[1..])
  }

  lemma {:induction false} LineEndIs(s: seq<Byte>, i: nat, text: seq<Byte>)
    requires i + |text| < |s| && s[i..i + |text|] == text && s[i + |text|] == NEWLINE && NEWLINE !in text
    ensures LineEnd(s, i) == i + |text| + 1
    decreases |text|
  {
    if text != [] {
      assert s[i] == text[0] && text[0] in text;
      assert s[i + 1..i + |text|] == text[1..];
      LineEndIs(s, i + 1, text[1..]);
    }
  }

  /** `part` lies in s at i. */
  ghost predicate At(s: seq<Byte>, i: nat, part: seq<Byte>) {
    i + |part| <= |s| && s[i..i + |part|] == part
  }

  lemma AtParts(s: seq<Byte>, i: nat, a: seq<Byte>, b: seq<Byte>)
    requires At(s, i, a + b)
    ensures At(s, i, a) && At(s, i + |a|, b)
  {
    assert s[i..i + |a + b|][..|a|] == a && s[i..i + |a + b|][|a|..] == b;
  }

  lemma {:induction false} SkipsBlanks(s: seq<Byte>, i: nat, bs: seq<Blank>)
    requires At(s, i, PrintBlanks(bs)) && forall k | 0 <= k < |bs| :: BlankOk(bs[k])
    ensures Skip(s, i) == Skip(s, i + |PrintBlanks(bs)|)
    decreases |bs|
  {
    hide Skip, PrintBlank, BlankOk;
    if bs != [] {
      var b := bs[0];
      AtParts(s, i, PrintBlank(b), PrintBlanks(bs[1..]));
      SkipsBlanks(s, i + |PrintBlank(b)|, bs[1..]);
      SkipsOne(s, i, b);
    }
  }

  /** Skip passes one blank at a time. */
  lemma SkipStep(s: seq<Byte>, i: nat)
    requires i < |s| && (s[i] == HASH || IsSpace(s[i]))
    ensures Skip(s, i) == Skip(s, if s[i] == HASH then LineEnd(s, i + 1) else i + 1)
  {
    hide LineEnd;
  }

  lemma CommentParts(s: seq<Byte>, i: nat, text: seq<Byte>)
    requires At(s, i, PrintBlank(Comment(text)))
    ensures |PrintBlank(Comment(text))| == |text| + 2 && i + |text| + 2 <= |s|
    ensures s[i] == HASH && s[i + 1..i + 1 + |text|] == text && s[i + 1 + |text|] == NEWLINE
  {
    hide At, PrintBlank;
    assert PrintBlank(Comment(text)) == [HASH] + text + [NEWLINE] by { PrintedComment(text); }
    AtParts(s, i, [HASH] + text, [NEWLINE]);
    AtParts(s, i, [HASH], text);
    AtOne(s, i, HASH);
    AtOne(s, i + 1 + |text|, NEWLINE);
    AtIs(s, i + 1, text);
  }

  lemma PrintedComment(text: seq<Byte>)
    ensures PrintBlank(Comment(text)) == [HASH] + text + [NEWLINE]
  {
  }

  lemma AtIs(s: seq<Byte>, i: nat, part: seq<Byte>)
    requires At(s, i, part)
    ensures i + |part| <= |s| && s[i..i + |part|] == part
  {
  }

  lemma AtOne(s: seq<Byte>, i: nat, b: Byte)
    requires At(s, i, [b])
    ensures i < |s| && s[i] == b
  {
    assert s[i..i + 1][0] == b;
  }

  lemma SkipsComment(s: seq<Byte>, i: nat, text: seq<Byte>)
    requires At(s, i, PrintBlank(Comment(text))) && NEWLINE !in text
    ensures Skip(s, i) == Skip(s, i + |PrintBlank(Comment(text))|)
  {
    hide Skip, LineEnd, At, PrintBlank;
    CommentParts(s, i, text);
    LineEndIs(s, i + 1, text);
    SkipStep(s, i);
  }

  lemma SkipsOne(s: seq<Byte>, i: nat, b: Blank)
    requires At(s, i, PrintBlank(b)) && BlankOk(b)
    ensures Skip(s, i) == Skip(s, i + |PrintBlank(b)|)
  {
    hide Skip, LineEnd, At;
    match b
    case Comment(text) => SkipsComment(s, i, text);
    case Space(c) =>
      AtOne(s, i, c);
      SkipStep(s, i);
  }

  lemma {:induction false} DigitsEndIs(s: seq<Byte>, i: nat, d: seq<Byte>)
    requires At(s, i, d) && AllDigits(d) && (i + |d| < |s| ==> !IsDigit(s[i + |d|]))
    ensures DigitsEnd(s, i) == i + |d|
    decreases |d|
  {
    if d != [] {
      assert s[i] == d[0];
      assert s[i + 1..i + |d|] == d[1..];
      DigitsEndIs(s, i + 1, d[1..]);
    }
  }

  /** Blanks, a number, one white space. */
  datatype Field = Field(blanks: seq<Blank>, number: nat, space: Byte)

  ghost predicate FieldOk(f: Field) {
    White(f.space) && forall k | 0 <= k < |f.blanks| :: BlankOk(f.blanks[k])
  }

  function PrintField(f: Field): seq<Byte> {
    PrintBlanks(f.blanks) + Decimal(f.number) + [f.space]
  }

  /** C finds the number of a printed field, and white space behind it. */
  lemma NumberAt(s: seq<Byte>, i: nat, f: Field)
    requires At(s, i, PrintField(f)) && FieldOk(f)
    ensures var t := TokenAt(s, i);
            && Spaced(s, t) && t.start <= t.end && Lexeme(s, t) == Decimal(f.number)
            && Numeral(Lexeme(s, t)) == f.number && After(s, t) == i + |PrintField(f)|
  {
    hide PrintBlanks, Decimal, Numeral, Skip, DigitsEnd, BlankOk;
    var bs, n := f.blanks, f.number;
    AtParts(s, i, PrintBlanks(bs) + Decimal(n), [f.space]);
    AtParts(s, i, PrintBlanks(bs), Decimal(n));
    SkipsBlanks(s, i, bs);
    var start := i + |PrintBlanks(bs)|;
    var end := start + |Decimal(n)|;
    assert s[end..end + 1][0] == f.space;
    assert s[start..end][0] == Decimal(n)[0];
    SkipStops(s, start);
    DigitsEndIs(s, start, Decimal(n));
    NumeralDecimal(n);
  }

  lemma SkipStops(s: seq<Byte>, i: nat)
    requires i < |s| && IsDigit(s[i])
    ensures Skip(s, i) == i
  {
  }

  /** Magic and three fields. Since a field ends in white space, every comment after the first number
      is preceded by white space. */
  function PrintHeader(w: Field, h: Field, m: Field): seq<Byte> {
    [80, 53] + PrintField(w) + PrintField(h) + PrintField(m)
  }

  /** Both readers take every printed header apart into the same three numerals and stop together
      just before the pixels. The sweep's numbers are the printed ones; the client's are too, exactly
      when they fit 64 bits. */
  lemma PrintedHeader(w: Field, h: Field, m: Field, pixels: seq<Byte>)
    requires FieldOk(w) && FieldOk(h) && FieldOk(m)
    ensures var head := PrintHeader(w, h, m); var s := head + pixels;
            && Geom(s, 2, [], []) == Scan([Decimal(w.number), Decimal(h.number), Decimal(m.number)], |head|)
            && First(s).Token? && Second(s).Token? && Third(s).Token? && After(s, Third(s)) == |head|
            && Numeral(Lexeme(s, First(s))) == w.number
            && Numeral(Lexeme(s, Second(s))) == h.number
            && Numeral(Lexeme(s, Third(s))) == m.number
            && (Number(s, First(s)) == w.number && Number(s, Second(s)) == h.number && Number(s, Third(s)) == m.number
                <==> w.number < TWO_64 && h.number < TWO_64 && m.number < TWO_64)
  {
    hide PrintField, FieldOk, Decimal, Numeral, TokenAt, Geom, At, Lexeme, After, InStep;
    var s := PrintHeader(w, h, m) + pixels;
    Places(PrintField(w), PrintField(h), PrintField(m), pixels);
    NumberAt(s, 2, w);
    NumberAt(s, 2 + |PrintField(w)|, h);
    NumberAt(s, 2 + |PrintField(w)| + |PrintField(h)|, m);
    SpacedInStep(s, First(s));
    SpacedInStep(s, Second(s));
    HeadersAgree(s);
  }

  lemma SpacedInStep(s: seq<Byte>, t: Token)
    requires Spaced(s, t)
    ensures InStep(s, t)
  {
    hide Blind;
  }

  lemma Places(p1: seq<Byte>, p2: seq<Byte>, p3: seq<Byte>, pixels: seq<Byte>)
    ensures var s := [80, 53] + p1 + p2 + p3 + pixels;
            At(s, 2, p1) && At(s, 2 + |p1|, p2) && At(s, 2 + |p1| + |p2|, p3)
  {
  }

  /** A comment stuck to a number: the client reads on inside the comment, the sweep after it. */
  lemma GluedCommentDiffers()
    ensures var s := [80, 53, 32, 49, HASH, 50, NEWLINE, 51, 32, 52, 32]; // P5 1#2\n3 4
            && Third(s).Token?
            && Lexeme(s, First(s)) == [49] && Lexeme(s, Second(s)) == [50] && Lexeme(s, Third(s)) == [51]
            && Geom(s, 2, [], []).Truncated?
  {
    var s := [80, 53, 32, 49, HASH, 50, NEWLINE, 51, 32, 52, 32];
    assert Skip(s, 2) == 3 && DigitsEnd(s, 3) == 4;
    assert Skip(s, 5) == 5 && DigitsEnd(s, 5) == 6;
    assert Skip(s, 7) == 7 && DigitsEnd(s, 7) == 8;
    assert LineEnd(s, 5) == 7;
    var one: seq<Byte> := [49];
    assert [] + [s[3]] == one && one + [s[7]] == [49, 51] && [] + [s[9]] == [52];
    var none: seq<seq<Byte>> := [];
    assert none + [[49, 51]] == [[49, 51]];
    assert Geom(s, 2, [], []) == Geom(s, 3, [], []) == Geom(s, 4, one, []);
    assert Geom(s, 4, one, []) == Geom(s, 7, one, []);
    assert Geom(s, 7, one, []) == Geom(s, 8, [49, 51], []) == Geom(s, 9, [], [[49, 51]]);
    assert Geom(s, 9, [], [[49, 51]]) == Geom(s, 10, [52], [[49, 51]]);
    assert Geom(s, 10, [52], [[49, 51]]) == Geom(s, 11, [], [[49, 51], [52]]) by {
      assert [[49, 51]] + [[52]] == [[49, 51], [52]];
    }
  }

  // --- where the client finds a number ---

  /** Whatever Skip passes before another byte is a row of blanks. */
  lemma {:induction false} SkippedBlanks(s: seq<Byte>, i: nat) returns (bs: seq<Blank>)
    requires i <= |s| && Skip(s, i) < |s|
    ensures PrintBlanks(bs) == s[i..Skip(s, i)] && forall k | 0 <= k < |bs| :: BlankOk(bs[k])
    decreases |s| - i
  {
    hide PrintBlank, BlankOk;
    if s[i] == HASH {
      var after := LineEnd(s, i + 1);
      var rest := SkippedBlanks(s, after);
      var line := LineIsComment(s, i);
      bs := [line] + rest;
      assert bs[1..] == rest && s[i..Skip(s, i)] == s[i..after] + s[after..Skip(s, i)];
    } else if IsSpace(s[i]) {
      var rest := SkippedBlanks(s, i + 1);
      var one := ByteIsSpace(s, i);
      bs := [one] + rest;
      assert bs[1..] == rest && s[i..Skip(s, i)] == s[i..i + 1] + s[i + 1..Skip(s, i)];
    } else {
      bs := [];
      assert s[i..i] == [];
    }
  }

  lemma ByteIsSpace(s: seq<Byte>, i: nat) returns (b: Blank)
    requires i < |s| && IsSpace(s[i])
    ensures BlankOk(b) && PrintBlank(b) == s[i..i + 1]
  {
    b := Space(s[i]);
  }

  lemma LineIsComment(s: seq<Byte>, i: nat) returns (b: Blank)
    requires i < |s| && s[i] == HASH && Skip(s, LineEnd(s, i + 1)) < |s|
    ensures BlankOk(b) && PrintBlank(b) == s[i..LineEnd(s, i + 1)]
  {
    hide Skip, LineEnd;
    LineEnds(s, i + 1);
    var end := LineEnd(s, i + 1);
    b := Comment(s[i + 1..end - 1]);
    assert s[i..end] == [s[i]] + s[i + 1..end - 1] + [s[end - 1]];
  }

  lemma {:induction false} LineEnds(s: seq<Byte>, i: nat)
    requires i <= |s| && LineEnd(s, i) < |s|
    ensures i < LineEnd(s, i) && s[LineEnd(s, i) - 1] == NEWLINE && NEWLINE !in s[i..LineEnd(s, i) - 1]
    decreases |s| - i
  {
    if s[i] != NEWLINE {
      LineEnds(s, i + 1);
      var end := LineEnd(s, i);
      assert s[i..end - 1] == [s[i]] + s[i + 1..end - 1];
    }
  }

  predicate DigitsOnly(s: seq<Byte>) {
    forall k | 0 <= k < |s| :: 48 <= s[k] <= 57
  }

  ghost predicate Blanks(s: seq<Byte>, bs: seq<Blank>) {
    PrintBlanks(bs) == s && forall k | 0 <= k < |bs| :: BlankOk(bs[k])
  }

  /** The client's next number is exactly the first longest run of digits with nothing but white space and
      whole comment lines before it. */
  lemma TokenExactly(s: seq<Byte>, i: nat, a: nat, b: nat)
    requires i <= |s|
    ensures TokenAt(s, i) == Token(a, b) <==>
              && i <= a < b <= |s| && DigitsOnly(s[a..b]) && (b < |s| ==> !(48 <= s[b] <= 57))
              && exists bs :: Blanks(s[i..a], bs)
  {
    hide Skip, PrintBlanks, BlankOk;
    if TokenAt(s, i) == Token(a, b) {
      DigitsSpan(s, a);
      var bs := SkippedBlanks(s, i);
      assert Blanks(s[i..a], bs);
    }
    if i <= a < b <= |s| && DigitsOnly(s[a..b]) && (b < |s| ==> !(48 <= s[b] <= 57)) {
      if bs :| Blanks(s[i..a], bs) {
        SkipsTo(s, i, a, bs);
        assert s[a] == s[a..b][0];
        SkipStays(s, a);
        assert s[a..a + |s[a..b]|] == s[a..b] && At(s, a, s[a..b]);
        DigitsEndIs(s, a, s[a..b]);
      }
    }
  }

  lemma SkipsTo(s: seq<Byte>, i: nat, a: nat, bs: seq<Blank>)
    requires i <= a <= |s| && Blanks(s[i..a], bs)
    ensures Skip(s, i) == Skip(s, a)
  {
    hide Skip, PrintBlanks, BlankOk;
    assert s[i..i + |s[i..a]|] == s[i..a] && At(s, i, PrintBlanks(bs));
    SkipsBlanks(s, i, bs);
  }

  lemma SkipStays(s: seq<Byte>, a: nat)
    requires a < |s| && IsDigit(s[a])
    ensures Skip(s, a) == a
  {
  }

  lemma DigitsSpan(s: seq<Byte>, a: nat)
    requires a <= |s|
    ensures DigitsOnly(s[a..DigitsEnd(s, a)])
  {
  }

  // --- pixels ---

  /** The loop that raises bitness while (1 << bitness) - 1 < maxval. */
  method Bitness(maxval: nat) returns (bitness: nat)
    ensures bitness == Bits(maxval)
  {
    hide Pow2;
    bitness := 8;
    while Pow2(bitness) - 1 < maxval
      invariant bitness >= 8 && (bitness > 8 ==> Pow2(bitness - 1) <= maxval)
      decreases maxval + 1 - Pow2(bitness)
    {
      Grows(bitness);
      bitness := bitness + 1;
    }
    BitsIs(maxval, bitness);
  }

  lemma Grows(k: nat)
    ensures Pow2(k) < Pow2(k + 1)
  {
  }

  /** int.bit_length. */
  function BitLength(m: nat): nat {
    if m == 0 then 0 else 1 + BitLength(m / 2)
  }

  function Bits(maxval: nat): nat {
    if BitLength(maxval) < 8 then 8 else BitLength(maxval)
  }

  /** bucket_of. */
  function BucketOf(maxval: nat): (nat, nat) {
    (Bits(maxval), if maxval > 255 then 2 else 1)
  }

  lemma {:induction false} BitLengthIs(m: nat)
    ensures m < Pow2(BitLength(m)) && (m > 0 ==> Pow2(BitLength(m) - 1) <= m)
  {
    if m > 0 {
      BitLengthIs(m / 2);
    }
  }

  lemma BitsIs(maxval: nat, b: nat)
    requires b >= 8 && maxval < Pow2(b) && (b > 8 ==> Pow2(b - 1) <= maxval)
    ensures b == Bits(maxval)
  {
    hide Pow2;
    var n := BitLength(maxval);
    BitLengthIs(maxval);
    if n > b {
      Pow2Monotone(b, n - 1);
    } else if n < b && b > 8 {
      Pow2Monotone(n, b - 1);
    }
  }

  /** Two bytes per sample exactly when the bitness says so: client, sweep and server agree. */
  lemma SameBytesPerPixel(maxval: nat)
    requires maxval <= 65535
    ensures 8 <= Bits(maxval) <= 16
    ensures maxval > 255 <==> Bits(maxval) > 8
    ensures BucketOf(maxval) == (Bits(maxval), BytesPerPixel(Bits(maxval)))
  {
    hide Pow2;
    PowerTable();
    BitLengthIs(maxval);
    var n := BitLength(maxval);
    assert Pow2(8) == 256 by { EightBits(); }
    if n > 16 {
      Pow2Monotone(16, n - 1);
    }
    if n > 8 {
      Pow2Monotone(8, n - 1);
    } else {
      Pow2Monotone(n, 8);
    }
  }

  lemma EightBits()
    ensures Pow2(8) == 256
  {
    assert Pow2(4) == 16;
  }

  /** Each pair of bytes exchanged. */
  function Swapped(s: seq<Byte>): (r: seq<Byte>)
    requires |s| % 2 == 0
    ensures |r| == |s|
  {
    seq<Byte>(|s|, i requires 0 <= i < |s| => if i % 2 == 0 then s[i + 1] else s[i - 1])
  }

  /** Big-endian samples become little-endian ones of the same value, and a second swap undoes it. */
  lemma SwapReverses(s: seq<Byte>)
    requires |s| % 2 == 0
    ensures Swapped(Swapped(s)) == s
    ensures forall i | 0 <= i < |s| / 2 ::
              GetU16(Swapped(s)[2 * i..2 * i + 2]) == 0x100 * s[2 * i] as int + s[2 * i + 1] as int
  {
    var r := Swapped(s);
    forall i | 0 <= i < |s| / 2
      ensures GetU16(r[2 * i..2 * i + 2]) == 0x100 * s[2 * i] as int + s[2 * i + 1] as int
    {
      assert r[2 * i] == s[2 * i + 1] && r[2 * i + 1] == s[2 * i];
    }
  }

  /** The in-place swap of pgm_load, over `npix` samples whatever the buffer. It reports whether it
      stayed inside, and goes no further if it did not. */
  method SwapInPlace(pixels: array<Byte>, npix: nat) returns (inside: bool)
    modifies pixels
    ensures inside <==> 2 * npix <= pixels.Length
    ensures inside ==> pixels[..2 * npix] == Swapped(old(pixels[..2 * npix]))
                       && pixels[2 * npix..] == old(pixels[2 * npix..])
  {
    ghost var was := pixels[..];
    for i := 0 to npix
      invariant 2 * i <= pixels.Length
      invariant forall k | 0 <= k < i :: pixels[2 * k] == was[2 * k + 1] && pixels[2 * k + 1] == was[2 * k]
      invariant forall k | 2 * i <= k < pixels.Length :: pixels[k] == was[k]
    {
      if 2 * i + 1 >= pixels.Length {
        return false;
      }
      var hi := pixels[2 * i];
      pixels[2 * i] := pixels[2 * i + 1];
      pixels[2 * i + 1] := hi;
    }
    inside := true;
    forall k | 0 <= k < 2 * npix
      ensures pixels[k] == Swapped(was[..2 * npix])[k]
    {
      assert pixels[2 * (k / 2)] == was[2 * (k / 2) + 1] && pixels[2 * (k / 2) + 1] == was[2 * (k / 2)];
    }
  }

  // --- the whole file ---

  /** struct image: pixels as they go on the wire. */
  datatype Picture = Picture(width: U16, height: U16, bitness: Byte, pixels: seq<Byte>)

  datatype Load =
    | Malformed
    | Overrun              // the swap left the buffer; nothing is promised from there on
    | Loaded(pic: Picture)

  predicate SizesOk(w: nat, h: nat, maxval: nat) {
    1 <= w <= 65535 && 1 <= h <= 65535 && 1 <= maxval <= 65535
  }

  /** pgm_load on the bytes of a file. */
  function Loading(s: seq<Byte>): Load {
    if |s| < 2 || s[0] != 80 || s[1] != 53 || !Third(s).Token? then Malformed
    else
      var w, h, maxval := Number(s, First(s)), Number(s, Second(s)), Number(s, Third(s));
      if !SizesOk(w, h, maxval) then Malformed
      else LoadPixels(s[After(s, Third(s))..], w, h, maxval)
  }

  function PixelCount(w: U16, h: U16): nat {
    PixelBound(w, h);
    w as nat * h as nat
  }

  function ByteCount(w: U16, h: U16, maxval: U16): (n: nat)
    ensures maxval > 255 ==> n % 2 == 0
  {
    if maxval > 255 then 2 * PixelCount(w, h) else PixelCount(w, h)
  }

  function DepthOf(maxval: U16): Byte {
    SameBytesPerPixel(maxval);
    Bits(maxval)
  }

  function WirePixels(raster: seq<Byte>, maxval: U16): seq<Byte>
    requires maxval > 255 ==> |raster| % 2 == 0
  {
    if maxval > 255 then Swapped(raster) else raster
  }

  /** `bytes`, a uint32_t, is what is allocated and read; the swap goes by the pixels. */
  function LoadPixels(rest: seq<Byte>, w: U16, h: U16, maxval: U16): Load {
    var bytes := Wrap32(ByteCount(w, h, maxval));
    if |rest| < bytes then Malformed
    else if maxval > 255 && 2 * PixelCount(w, h) > bytes then Overrun
    else Loaded(Picture(w, h, DepthOf(maxval), WirePixels(rest[..bytes], maxval)))
  }

  method PgmLoad(s: seq<Byte>) returns (r: Load)
    ensures r == Loading(s)
  {
    hide Numeral, TokenAt, Bits, Swapped;
    if |s| < 2 || s[0] != 80 || s[1] != 53 {
      return Malformed;
    }
    var ok, w, h, maxval, next;
    ok, w, next := PgmToken(s, 2);
    if !ok {
      return Malformed;
    }
    ok, h, next := PgmToken(s, next);
    if !ok {
      return Malformed;
    }
    ok, maxval, next := PgmToken(s, next);
    if !ok || w == 0 || h == 0 || w > 65535 || h > 65535 || maxval == 0 || maxval > 65535 {
      return Malformed;
    }
    r := ReadPixels(s, next, w, h, maxval);
  }

  /** The second half of pgm_load: bitness, fread, swap. */
  method ReadPixels(s: seq<Byte>, next: nat, w: U16, h: U16, maxval: U16) returns (r: Load)
    requires next <= |s|
    ensures r == LoadPixels(s[next..], w, h, maxval)
  {
    hide Bits, Swapped, PixelCount, Wrap32;
    SameBytesPerPixel(maxval);
    var bitness := Bitness(maxval);
    var npix := PixelCount(w, h);
    var bytes := Wrap32(npix * (if maxval > 255 then 2 else 1));
    Wraps(w, h, maxval);
    assert bytes == Wrap32(ByteCount(w, h, maxval));
    if |s| - next < bytes {
      return Malformed;
    }
    var pixels := new Byte[bytes];
    forall k | 0 <= k < bytes {
      pixels[k] := s[next + k];
    }
    ghost var raster := s[next..][..bytes];
    assert pixels[..] == raster;
    if maxval > 255 {
      assert 2 * npix <= bytes ==> pixels[..2 * npix] == raster;
      var inside := SwapInPlace(pixels, npix);
      if !inside {
        return Overrun;
      }
      assert pixels[..2 * npix] == pixels[..];
    }
    return Loaded(Picture(w, h, bitness, pixels[..]));
  }

  /** What is loaded is what the server's size check asks for, at the bitness the sweep expects. */
  lemma LoadedFits(s: seq<Byte>, req: Hdr)
    requires Loading(s).Loaded?
    requires var p := Loading(s).pic; req.width == p.width && req.height == p.height && req.bitness == p.bitness
    ensures 8 <= req.bitness <= 16 && req.width > 0 && req.height > 0
    ensures BucketOf(Number(s, Third(s))) == (req.bitness, BytesPerPixel(req.bitness))
    ensures |Loading(s).pic.pixels| == TrueImageBytes(req) == Expect(req) > 0
  {
    hide Bits, TokenAt, Swapped, Numeral;
    var w, h, maxval := Number(s, First(s)), Number(s, Second(s)), Number(s, Third(s));
    SameBytesPerPixel(maxval);
    PixelBound(req.width, req.height);
    Wraps(w, h, maxval);
    ExpectIs(req);
  }

  /** The byte count wraps for exactly the deep pictures of 2^31 pixels or more, and is then too small. */
  lemma Wraps(w: U16, h: U16, maxval: U16)
    ensures var n := ByteCount(w, h, maxval);
            && (maxval <= 255 || w as nat * h as nat < 0x8000_0000 <==> Wrap32(n) == n)
            && (Wrap32(n) != n ==> Wrap32(n) == n - TWO_32 < n)
            && (maxval > 255 ==> n == 2 * PixelCount(w, h) && Wrap32(n) % 2 == 0)
  {
    PixelBound(w, h);
  }

  /** The swap stays inside the buffer, and the picture has its true size, for every picture that is not
      both deep and of 2^31 pixels or more. Such a one leaves the buffer as soon as the file holds the
      wrapped count of bytes. */
  lemma OverrunIs(rest: seq<Byte>, w: U16, h: U16, maxval: U16)
    ensures var load := LoadPixels(rest, w, h, maxval); var n := ByteCount(w, h, maxval);
            && (load.Overrun? <==> maxval > 255 && w as nat * h as nat >= 0x8000_0000 && |rest| >= n - TWO_32)
            && (load.Loaded? <==> (maxval <= 255 || w as nat * h as nat < 0x8000_0000) && |rest| >= n)
            && (load.Loaded? ==> |load.pic.pixels| == n)
  {
    hide Bits, Swapped;
    Wraps(w, h, maxval);
  }

  /** A header for which a file of 64 KB is enough: the wrapped count is 65534, the swap covers
      2147516415 samples. */
  lemma OverrunHeader(pixels: seq<Byte>)
    requires |pixels| >= 65534
    ensures var space := 32;
            var head := PrintHeader(Field([], 65535, space), Field([], 32769, space), Field([], 65535, space));
            Loading(head + pixels).Overrun?
  {
    hide Loading, LoadPixels, PrintHeader, Decimal;
    var w, h, m := Field([], 65535, 32), Field([], 32769, 32), Field([], 65535, 32);
    PrintedLoads(w, h, m, pixels);
    OverrunIs(pixels, 65535, 32769, 65535);
    assert ByteCount(65535, 32769, 65535) == 4295032830;
  }

  /** From the printed header to the loaded picture. The numbers count modulo 2^64, so a header may
      name a size out of all bounds and still load as a small picture; below 2^64 they count as they
      are. */
  lemma PrintedLoads(w: Field, h: Field, m: Field, pixels: seq<Byte>)
    requires FieldOk(w) && FieldOk(h) && FieldOk(m)
    ensures var w64, h64, m64 := w.number % TWO_64, h.number % TWO_64, m.number % TWO_64;
            Loading(PrintHeader(w, h, m) + pixels) ==
            if SizesOk(w64, h64, m64) then LoadPixels(pixels, w64, h64, m64) else Malformed
  {
    hide PrintField, FieldOk, Decimal, Numeral, TokenAt, Geom, Lexeme, After, LoadPixels, First, Second, Third;
    PrintedHeader(w, h, m, pixels);
    var head := PrintHeader(w, h, m);
    var s := head + pixels;
    assert s[0] == 80 && s[1] == 53 && |s| >= 2;
    assert s[|head|..] == pixels;
    TokensInside(s);
  }

  /** Every printed header with numbers of 64 bits loads exactly if the three are from 1 to 65535, the
      picture is not one that overruns, and the raster is complete; and then as that picture: its width
      and height, the least bitness from 8 on that holds maxval, and its samples in the order of the file,
      each of them little-endian. */
  lemma LoadsAsPrinted(w: Field, h: Field, m: Field, pixels: seq<Byte>)
    requires FieldOk(w) && FieldOk(h) && FieldOk(m)
    requires w.number < 0x1_0000_0000_0000_0000 && h.number < 0x1_0000_0000_0000_0000
    requires m.number < 0x1_0000_0000_0000_0000
    ensures var load := Loading(PrintHeader(w, h, m) + pixels);
            var n := if m.number <= 255 then w.number * h.number else 2 * (w.number * h.number);
            && (load.Loaded? <==>
                  && 1 <= w.number <= 65535 && 1 <= h.number <= 65535 && 1 <= m.number <= 65535
                  && (m.number <= 255 || w.number * h.number < 0x8000_0000) && n <= |pixels|)
            && (load.Loaded? ==>
                  && load.pic.width == w.number && load.pic.height == h.number && |load.pic.pixels| == n
                  && 8 <= load.pic.bitness && m.number < Pow2(load.pic.bitness)
                  && (load.pic.bitness > 8 ==> Pow2(load.pic.bitness - 1) <= m.number)
                  && AsInFile(load.pic.pixels, pixels, m.number > 255))
  {
    hide PrintHeader, FieldOk, LoadPixels, Loading, Pow2, Bits;
    PrintedLoads(w, h, m, pixels);
    assert w.number % TWO_64 == w.number && h.number % TWO_64 == h.number && m.number % TWO_64 == m.number;
    if SizesOk(w.number, h.number, m.number) {
      OverrunIs(pixels, w.number, h.number, m.number);
      if LoadPixels(pixels, w.number, h.number, m.number).Loaded? {
        PixelsAsInFile(pixels, w.number, h.number, m.number);
      }
    }
  }

  /** The pixels of the wire are those of the file, with the bytes of each two-byte sample exchanged. */
  ghost predicate AsInFile(wire: seq<Byte>, raster: seq<Byte>, deep: bool) {
    && |wire| <= |raster| && (deep ==> |wire| % 2 == 0)
    && forall i | 0 <= i < |wire| ::
         wire[i] == if !deep then raster[i] else if i % 2 == 0 then raster[i + 1] else raster[i - 1]
  }

  lemma PixelsAsInFile(rest: seq<Byte>, w: U16, h: U16, maxval: U16)
    requires LoadPixels(rest, w, h, maxval).Loaded?
    ensures var p := LoadPixels(rest, w, h, maxval).pic;
            && p.width == w && p.height == h
            && 8 <= p.bitness && maxval as nat < Pow2(p.bitness) && (p.bitness > 8 ==> Pow2(p.bitness - 1) <= maxval)
            && AsInFile(p.pixels, rest, maxval > 255)
  {
    hide Pow2, Bits;
    OverrunIs(rest, w, h, maxval);
    LeastBits(maxval);
  }

  lemma LeastBits(maxval: nat)
    ensures var b := Bits(maxval); 8 <= b && maxval < Pow2(b) && (b > 8 ==> Pow2(b - 1) <= maxval)
  {
    hide Pow2;
    BitLengthIs(maxval);
    if BitLength(maxval) < 8 {
      Pow2Monotone(BitLength(maxval), 8);
    }
  }

  lemma TokensInside(s: seq<Byte>)
    requires |s| >= 2 && Third(s).Token?
    ensures First(s).Token? && Second(s).Token?
    ensures First(s).start <= First(s).end <= |s| && Second(s).start <= Second(s).end <= |s|
            && Third(s).start <= Third(s).end <= |s|
  {
    hide TokenAt, After;
  }
}
