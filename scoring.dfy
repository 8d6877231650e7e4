/**
 * Black/white peg scoring of a guess against a secret code, as computed at the
 * start of Game.CheckGuess: pass one counts exact positional matches and marks
 * both positions consumed; pass two gives each unconsumed guess position the
 * lowest-index unconsumed secret position holding the same byte.
 *
 * The pure functions below follow the two passes position by position; the
 * method ScoreGuess runs them over two boolean marker arrays, as the source does.
 * The main theorem, ScoreIsCommonDigits, says that the total number of pegs is
 * the size of the multiset intersection of the two codes, so no secret byte is
 * ever counted twice.
 */
module Scoring {

  /** A Go string is indexed by byte. */
  newtype byte = b: int | 0 <= b < 256

  /** Both marker slices of CheckGuess have four entries. */
  const Width: nat := 4

  datatype Pegs = Pegs(black: nat, white: nat)

  predicate IsDigit(b: byte) {
    '0' as int <= b as int <= '9' as int
  }

  /** The format of a secret code: four ASCII digits. */
  predicate IsCode(c: seq<byte>) {
    |c| == Width && forall i :: 0 <= i < |c| ==> IsDigit(c[i])
  }

  /** The bytes of an ASCII string. */
  function Ascii(s: string): (r: seq<byte>)
    requires forall i :: 0 <= i < |s| ==> s[i] as int < 256
    ensures |r| == |s| && forall i :: 0 <= i < |s| ==> r[i] as int == s[i] as int
  {
    seq(|s|, i requires 0 <= i < |s| => (s[i] as int) as byte)
  }

  // ---------------------------------------------------------------------------
  // Pass one: exact matches

  /** The marker array after pass one (the same for secret and guess). */
  function ExactMarks(s: seq<byte>, g: seq<byte>): seq<bool>
    requires |s| == |g|
  {
    seq(|s|, i requires 0 <= i < |s| => s[i] == g[i])
  }

  /** The number of black pegs counted at positions j and above. */
  function BlackFrom(s: seq<byte>, g: seq<byte>, j: nat): nat
    requires |s| == |g| && j <= |s|
    decreases |s| - j
  {
    if j == |s| then 0 else (if s[j] == g[j] then 1 else 0) + BlackFrom(s, g, j + 1)
  }

  // ---------------------------------------------------------------------------
  // Pass two: colour matches

  /** The inner loop of pass two: the lowest unconsumed position k >= j of s holding d, or |s|. */
  function FirstFree(s: seq<byte>, sm: seq<bool>, d: byte, j: nat): (k: nat)
    requires |sm| == |s| && j <= |s|
    ensures j <= k <= |s|
    ensures k < |s| ==> !sm[k] && s[k] == d
    ensures forall i :: j <= i < k ==> sm[i] || s[i] != d
    decreases |s| - j
  {
    if j == |s| then |s|
    else if !sm[j] && s[j] == d then j
    else FirstFree(s, sm, d, j + 1)
  }

  /**
   * The guess bytes awarded a white peg at guess positions i and above, given
   * the guess markers gm and the secret markers sm as they stand when position
   * i is reached; the number of white pegs is its size.
   */
  function WhiteFrom(s: seq<byte>, g: seq<byte>, gm: seq<bool>, i: nat, sm: seq<bool>): multiset<byte>
    requires |g| == |s| && |gm| == |g| && |sm| == |s| && i <= |g|
    decreases |g| - i
  {
    if i == |g| then multiset{}
    else if gm[i] then WhiteFrom(s, g, gm, i + 1, sm)
    else
      var k := FirstFree(s, sm, g[i], 0);
      if k < |s| then multiset{g[i]} + WhiteFrom(s, g, gm, i + 1, sm[k := true])
      else WhiteFrom(s, g, gm, i + 1, sm)
  }

  /**
   * The pegs of guess g against secret s. Every position is consumed at most
   * once, so there are at most four pegs in all.
   */
  function Score(s: seq<byte>, g: seq<byte>): (p: Pegs)
    requires |s| == Width && |g| == Width
    ensures p.black <= Width
    ensures p.black + p.white <= Width
  {
    var m := ExactMarks(s, g);
    ExactSplitGuess(s, g, m, 0);
    MatchedAreBlack(s, g, 0);
    WhiteIsIntersection(s, g, m, 0, m);
    IntersectionBound(FreeFrom(g, m, 0), FreeFrom(s, m, 0));
    assert g[0..] == g;
    assert |multiset(g)| == |MatchFrom(s, g, 0)| + |FreeFrom(g, m, 0)| == Width;
    Pegs(BlackFrom(s, g, 0), |WhiteFrom(s, g, m, 0, m)|)
  }

  /** The guess bytes that earned a peg, black or white. */
  function Awarded(s: seq<byte>, g: seq<byte>): multiset<byte>
    requires |s| == Width && |g| == Width
  {
    var m := ExactMarks(s, g);
    MatchFrom(s, g, 0) + WhiteFrom(s, g, m, 0, m)
  }

  // ---------------------------------------------------------------------------
  // The imperative version, with the two marker arrays of the source

  method ScoreGuess(secret: seq<byte>, guess: seq<byte>) returns (black: nat, white: nat)
    requires |secret| == Width && |guess| == Width
    ensures Pegs(black, white) == Score(secret, guess)
  {
    var secretMatched := new bool[Width](_ => false);
    var guessMatched := new bool[Width](_ => false);
    black, white := 0, 0;
    ghost var m := ExactMarks(secret, guess);

    // black markers
    var i := 0;
    while i < Width
      invariant 0 <= i <= Width
      invariant black + BlackFrom(secret, guess, i) == BlackFrom(secret, guess, 0)
      invariant forall k :: 0 <= k < i ==> secretMatched[k] == m[k] && guessMatched[k] == m[k]
      invariant forall k :: i <= k < Width ==> !secretMatched[k] && !guessMatched[k]
    {
      if secret[i] == guess[i] {
        black := black + 1;
        secretMatched[i] := true;
        guessMatched[i] := true;
      }
      i := i + 1;
    }
    assert secretMatched[..] == m && guessMatched[..] == m;

    // white markers
    i := 0;
    while i < Width
      invariant 0 <= i <= Width
      invariant guessMatched[..] == m
      invariant white + |WhiteFrom(secret, guess, m, i, secretMatched[..])| == |WhiteFrom(secret, guess, m, 0, m)|
    {
      if guessMatched[i] {
        i := i + 1;
        continue;
      }
      ghost var sm := secretMatched[..];
      ghost var k := FirstFree(secret, sm, guess[i], 0);
      var j := 0;
      while j < Width
        invariant 0 <= j <= k
        invariant secretMatched[..] == sm
        invariant FirstFree(secret, sm, guess[i], j) == k
      {
        if !secretMatched[j] && guess[i] == secret[j] {
          white := white + 1;
          secretMatched[j] := true;
          break;
        }
        j := j + 1;
      }
      assert secretMatched[..] == if k < Width then sm[k := true] else sm;
      i := i + 1;
    }
  }

  // ---------------------------------------------------------------------------
  // The multiset view of the markers

  /** The bytes of s at unconsumed positions j and above. */
  function FreeFrom(s: seq<byte>, sm: seq<bool>, j: nat): multiset<byte>
    requires |sm| == |s| && j <= |s|
    decreases |s| - j
  {
    if j == |s| then multiset{}
    else (if sm[j] then multiset{} else multiset{s[j]}) + FreeFrom(s, sm, j + 1)
  }

  /** The bytes at exactly matching positions j and above. */
  function MatchFrom(s: seq<byte>, g: seq<byte>, j: nat): multiset<byte>
    requires |s| == |g| && j <= |s|
    decreases |s| - j
  {
    if j == |s| then multiset{}
    else (if s[j] == g[j] then multiset{s[j]} else multiset{}) + MatchFrom(s, g, j + 1)
  }

  /** FirstFree finds a position exactly when the byte is still free. */
  lemma {:induction false} FirstFreeFinds(s: seq<byte>, sm: seq<bool>, d: byte, j: nat)
    requires |sm| == |s| && j <= |s|
    ensures FirstFree(s, sm, d, j) < |s| <==> d in FreeFrom(s, sm, j)
    decreases |s| - j
  {
    if j < |s| {
      FirstFreeFinds(s, sm, d, j + 1);
    }
  }

  /** Consuming a position after j does not change what is free from there on. */
  lemma {:induction false} ConsumeLater(s: seq<byte>, sm: seq<bool>, k: nat, j: nat)
    requires |sm| == |s| && k < j <= |s|
    ensures FreeFrom(s, sm[k := true], j) == FreeFrom(s, sm, j)
    decreases |s| - j
  {
    if j < |s| {
      ConsumeLater(s, sm, k, j + 1);
    }
  }

  /** Consuming a free position k at or after j removes exactly one copy of s[k]. */
  lemma {:induction false} ConsumeFree(s: seq<byte>, sm: seq<bool>, k: nat, j: nat)
    requires |sm| == |s| && j <= k < |s| && !sm[k]
    ensures s[k] in FreeFrom(s, sm, j)
    ensures FreeFrom(s, sm[k := true], j) == FreeFrom(s, sm, j) - multiset{s[k]}
    decreases |s| - j
  {
    if j == k {
      ConsumeLater(s, sm, k, k + 1);
    } else {
      ConsumeFree(s, sm, k, j + 1);
      var head := if sm[j] then multiset{} else multiset{s[j]};
      assert FreeFrom(s, sm[k := true], j) == head + FreeFrom(s, sm[k := true], j + 1);
      RemoveBelow(head, FreeFrom(s, sm, j + 1), s[k]);
    }
  }

  /** Removing an element of the right operand of a sum. */
  lemma RemoveBelow(head: multiset<byte>, rest: multiset<byte>, x: byte)
    requires x in rest
    ensures x in head + rest
    ensures head + (rest - multiset{x}) == (head + rest) - multiset{x}
  {
  }

  /** Pass two awards white pegs to exactly the bytes the free guess and secret bytes have in common. */
  lemma {:induction false} WhiteIsIntersection(s: seq<byte>, g: seq<byte>, gm: seq<bool>, i: nat, sm: seq<bool>)
    requires |g| == |s| && |gm| == |g| && |sm| == |s| && i <= |g|
    ensures WhiteFrom(s, g, gm, i, sm) == FreeFrom(g, gm, i) * FreeFrom(s, sm, 0)
    decreases |g| - i
  {
    if i < |g| {
      WhiteStep(s, g, gm, i, sm);
    }
  }

  /** One guess position of pass two, given the claim for the positions after it. */
  lemma {:induction false} WhiteStep(s: seq<byte>, g: seq<byte>, gm: seq<bool>, i: nat, sm: seq<bool>)
    requires |g| == |s| && |gm| == |g| && |sm| == |s| && i < |g|
    ensures WhiteFrom(s, g, gm, i, sm) == FreeFrom(g, gm, i) * FreeFrom(s, sm, 0)
    decreases |g| - i, 0
  {
    if gm[i] {
      assert WhiteFrom(s, g, gm, i, sm) == WhiteFrom(s, g, gm, i + 1, sm);
      assert FreeFrom(g, gm, i) == FreeFrom(g, gm, i + 1);
      WhiteIsIntersection(s, g, gm, i + 1, sm);
      return;
    }
    var d := g[i];
    var rest := FreeFrom(g, gm, i + 1);
    var free := FreeFrom(s, sm, 0);
    assert FreeFrom(g, gm, i) == multiset{d} + rest;
    var k := FirstFree(s, sm, d, 0);
    FirstFreeFinds(s, sm, d, 0);
    if k < |s| {
      var sm' := sm[k := true];
      assert WhiteFrom(s, g, gm, i, sm) == multiset{d} + WhiteFrom(s, g, gm, i + 1, sm');
      WhiteIsIntersection(s, g, gm, i + 1, sm');
      ConsumeFree(s, sm, k, 0);
      assert FreeFrom(s, sm', 0) == free - multiset{d};
      IntersectWithFree(d, rest, free);
    } else {
      assert WhiteFrom(s, g, gm, i, sm) == WhiteFrom(s, g, gm, i + 1, sm);
      WhiteIsIntersection(s, g, gm, i + 1, sm);
      IntersectWithAbsent(d, rest, free);
    }
  }

  /** A guess byte that is still free in the secret takes one copy of it. */
  lemma IntersectWithFree(d: byte, rest: multiset<byte>, free: multiset<byte>)
    requires d in free
    ensures (multiset{d} + rest) * free == multiset{d} + rest * (free - multiset{d})
  {
  }

  /** A guess byte that is not free in the secret takes nothing. */
  lemma IntersectWithAbsent(d: byte, rest: multiset<byte>, free: multiset<byte>)
    requires d !in free
    ensures (multiset{d} + rest) * free == rest * free
  {
    var lhs := (multiset{d} + rest) * free;
    forall x ensures lhs[x] == (rest * free)[x] {
    }
  }

  /** Pass one splits the secret into its exactly matched bytes and its free ones. */
  lemma {:induction false} ExactSplitSecret(s: seq<byte>, g: seq<byte>, m: seq<bool>, j: nat)
    requires |s| == |g| && m == ExactMarks(s, g) && j <= |s|
    ensures multiset(s[j..]) == MatchFrom(s, g, j) + FreeFrom(s, m, j)
    decreases |s| - j
  {
    if j < |s| {
      ExactSplitSecret(s, g, m, j + 1);
      assert s[j..] == [s[j]] + s[j + 1..];
      assert multiset(s[j..]) == multiset{s[j]} + multiset(s[j + 1..]);
    }
  }

  /** Pass one splits the guess into the same matched bytes and its own free ones. */
  lemma {:induction false} ExactSplitGuess(s: seq<byte>, g: seq<byte>, m: seq<bool>, j: nat)
    requires |s| == |g| && m == ExactMarks(s, g) && j <= |s|
    ensures multiset(g[j..]) == MatchFrom(s, g, j) + FreeFrom(g, m, j)
    decreases |s| - j
  {
    if j < |s| {
      ExactSplitGuess(s, g, m, j + 1);
      assert g[j..] == [g[j]] + g[j + 1..];
      assert multiset(g[j..]) == multiset{g[j]} + multiset(g[j + 1..]);
    }
  }

  /** The matched bytes are as many as the black pegs. */
  lemma {:induction false} MatchedAreBlack(s: seq<byte>, g: seq<byte>, j: nat)
    requires |s| == |g| && j <= |s|
    ensures |MatchFrom(s, g, j)| == BlackFrom(s, g, j)
    decreases |s| - j
  {
    if j < |s| {
      MatchedAreBlack(s, g, j + 1);
    }
  }

  /** The intersection of two multisets is no larger than either of them. */
  lemma IntersectionBound(a: multiset<byte>, b: multiset<byte>)
    ensures |a * b| <= |a| && |a * b| <= |b|
  {
    assert a * b + (a - b) == a;
    assert a * b + (b - a) == b;
  }

  // ---------------------------------------------------------------------------
  // Properties of the score

  /**
   * Reference characterisation: the total number of pegs is the number of bytes
   * the two codes have in common, counted with multiplicity.
   */
  lemma ScoreIsCommonDigits(s: seq<byte>, g: seq<byte>)
    requires |s| == Width && |g| == Width
    ensures Score(s, g).black + Score(s, g).white == |multiset(s) * multiset(g)|
  {
    NoDoubleCounting(s, g);
  }

  /**
   * The awarded bytes are the common bytes: every byte value d earns, in black
   * and white pegs together, exactly the smaller of its number of occurrences in
   * the secret and in the guess, so no value is ever counted twice.
   */
  lemma NoDoubleCounting(s: seq<byte>, g: seq<byte>)
    requires |s| == Width && |g| == Width
    ensures |Awarded(s, g)| == Score(s, g).black + Score(s, g).white
    ensures Awarded(s, g) == multiset(s) * multiset(g)
    ensures forall d :: Awarded(s, g)[d] == if multiset(s)[d] <= multiset(g)[d] then multiset(s)[d] else multiset(g)[d]
  {
    var m := ExactMarks(s, g);
    ExactSplitSecret(s, g, m, 0);
    ExactSplitGuess(s, g, m, 0);
    MatchedAreBlack(s, g, 0);
    WhiteIsIntersection(s, g, m, 0, m);
    assert s[0..] == s && g[0..] == g;
    var b, fs, fg := MatchFrom(s, g, 0), FreeFrom(s, m, 0), FreeFrom(g, m, 0);
    assert (b + fs) * (b + fg) == b + fg * fs;
  }

  /** Black pegs are maximal exactly when the codes agree at every position at and after j. */
  lemma {:induction false} BlackFromFull(s: seq<byte>, g: seq<byte>, j: nat)
    requires |s| == |g| && j <= |s|
    ensures BlackFrom(s, g, j) <= |s| - j
    ensures BlackFrom(s, g, j) == |s| - j <==> s[j..] == g[j..]
    decreases |s| - j
  {
    if j < |s| {
      BlackFromFull(s, g, j + 1);
      assert s[j..] == [s[j]] + s[j + 1..];
      assert g[j..] == [g[j]] + g[j + 1..];
    }
  }

  /** Four black pegs, the winning condition of CheckGuess, exactly when the guess equals the secret. */
  lemma WinIffEqual(s: seq<byte>, g: seq<byte>)
    requires |s| == Width && |g| == Width
    ensures Score(s, g).black == Width <==> s == g
  {
    BlackFromFull(s, g, 0);
    assert s[0..] == s && g[0..] == g;
  }

  /** A guess equal to the secret scores four black pegs and no white one. */
  lemma ExactGuess(s: seq<byte>)
    requires |s| == Width
    ensures Score(s, s) == Pegs(Width, 0)
  {
    WinIffEqual(s, s);
    ScoreIsCommonDigits(s, s);
    assert multiset(s) * multiset(s) == multiset(s);
  }

  /** A guess sharing no byte with the secret scores nothing. */
  lemma DisjointGuess(s: seq<byte>, g: seq<byte>)
    requires |s| == Width && |g| == Width
    requires forall i, j :: 0 <= i < Width && 0 <= j < Width ==> s[i] != g[j]
    ensures Score(s, g) == Pegs(0, 0)
  {
    ScoreIsCommonDigits(s, g);
    forall d | d in multiset(s) ensures d !in multiset(g) {
      var i :| 0 <= i < |s| && s[i] == d;
    }
    assert multiset(s) * multiset(g) == multiset{};
  }

  /** Black pegs do not depend on which code is the secret. */
  lemma {:induction false} BlackFromSymmetric(s: seq<byte>, g: seq<byte>, j: nat)
    requires |s| == |g| && j <= |s|
    ensures BlackFrom(s, g, j) == BlackFrom(g, s, j)
    decreases |s| - j
  {
    if j < |s| {
      BlackFromSymmetric(s, g, j + 1);
    }
  }

  /** The score is symmetric: exchanging secret and guess gives the same pegs. */
  lemma ScoreSymmetric(s: seq<byte>, g: seq<byte>)
    requires |s| == Width && |g| == Width
    ensures Score(s, g) == Score(g, s)
  {
    BlackFromSymmetric(s, g, 0);
    ScoreIsCommonDigits(s, g);
    ScoreIsCommonDigits(g, s);
    assert multiset(s) * multiset(g) == multiset(g) * multiset(s);
  }

  /** Secret "1123", guess "1111": two black pegs at positions 0 and 1 and no white peg. */
  lemma RepeatedDigitExample(s: seq<byte>, g: seq<byte>)
    requires s == Ascii("1123") && g == Ascii("1111")
    ensures Score(s, g) == Pegs(2, 0)
  {
    assert s == [49, 49, 50, 51] && g == [49, 49, 49, 49];
    assert Score(s, g).black == 2 by {
      assert BlackFrom(s, g, 3) == 0;
      assert BlackFrom(s, g, 1) == 1;
    }
    assert |multiset(s) * multiset(g)| == 2 by {
      assert multiset(s) == multiset{49, 49, 50, 51};
      assert multiset(g) == multiset{49, 49, 49, 49};
      assert multiset(s) * multiset(g) == multiset{49, 49};
    }
    ScoreIsCommonDigits(s, g);
  }

  /** Secret "1234", guess "4321": no black peg and four white pegs. */
  lemma ReversedCodeExample(s: seq<byte>, g: seq<byte>)
    requires s == Ascii("1234") && g == Ascii("4321")
    ensures Score(s, g) == Pegs(0, 4)
  {
    assert s == [49, 50, 51, 52] && g == [52, 51, 50, 49];
    assert Score(s, g).black == 0 by {
      assert BlackFrom(s, g, 3) == 0;
      assert BlackFrom(s, g, 1) == 0;
    }
    assert |multiset(s) * multiset(g)| == 4 by {
      var all: multiset<byte> := multiset{49, 50, 51, 52};
      assert multiset(s) == all;
      assert multiset(g) == all;
      assert all * all == all;
    }
    ScoreIsCommonDigits(s, g);
  }
}
