/**
 * Rabin-Karp substring search with a base-256 rolling hash reduced modulo
 * the prime 101 (Algo-Antoine/src/rabinKarp.c).
 *
 * Characters are the bytes 0..255; strings are sequences of them with an
 * explicit length, so `strlen` is `|s|` and `strncmp(a, b, n) == 0` is the
 * equality of two slices of length n.
 */
module RabinKarp {

  /** `PRIME` of the source: the modulus of the hash. */
  const Prime: int := 101
  /** The radix of the polynomial hash. */
  const Base: int := 256

  type Byte = c: int | 0 <= c < 256

  // ---------------------------------------------------------------------
  // Arithmetic: Dafny's `%` is Euclidean, C's `%` truncates toward zero.
  // ---------------------------------------------------------------------

  function Pow(b: int, e: nat): int
  {
    if e == 0 then 1 else b * Pow(b, e - 1)
  }

  /** C's `%` on a positive modulus: the remainder takes the sign of `x`. */
  function CRem(x: int, m: int): (r: int)
    requires m > 0
    ensures -m < r < m
    ensures x >= 0 ==> r >= 0
    ensures x <= 0 ==> r <= 0
  {
    if x >= 0 then x % m else -((-x) % m)
  }

  /** Multiplying by a factor of magnitude at least one keeps the sign and grows. */
  lemma MulMagnitude(m: int, z: int)
    requires m > 0
    ensures z >= 1 ==> m * z >= m
    ensures z <= -1 ==> m * z <= -m
  {
  }

  /** A number written as `m * q + r` with `0 <= r < m` has remainder `r`. */
  lemma ModUnique(x: int, m: int, q: int, r: int)
    requires m > 0 && 0 <= r < m && x == m * q + r
    ensures x % m == r
  {
    var q0, r0 := x / m, x % m;
    assert m * q0 + r0 == x;
    assert m * (q - q0) == r0 - r;
    MulMagnitude(m, q - q0);
  }

  /** Adding a multiple of the modulus does not change the remainder. */
  lemma ModAddMultiple(x: int, m: int, k: int)
    requires m > 0
    ensures (x + m * k) % m == x % m
  {
    assert x == m * (x / m) + x % m;
    assert x + m * k == m * (x / m + k) + x % m;
    ModUnique(x + m * k, m, x / m + k, x % m);
  }

  /** Lines 53-57: C's remainder by the prime, then the "negative correction". */
  function Corrected(x: int): int
  {
    var r := CRem(x, Prime);
    if r < 0 then r + Prime else r
  }

  /**
   * The truncating remainder followed by the negative correction is the
   * mathematical (Euclidean) remainder.
   */
  lemma CorrectedRemainder(x: int, m: int)
    requires m > 0
    ensures (if CRem(x, m) < 0 then CRem(x, m) + m else CRem(x, m)) == x % m
  {
    if x < 0 {
      var y := -x;
      assert y == m * (y / m) + y % m;
      if y % m == 0 {
        assert x == m * (-(y / m)) + 0;
        ModUnique(x, m, -(y / m), 0);
      } else {
        assert x == m * (-(y / m) - 1) + (m - y % m);
        ModUnique(x, m, -(y / m) - 1, m - y % m);
      }
    }
  }

  /** Two numbers with the same remainder differ by a multiple of the modulus. */
  lemma SameRemainder(a: int, b: int, m: int)
    requires m > 0 && a % m == b % m
    ensures a == b + m * (a / m - b / m)
  {
    assert a == m * (a / m) + a % m;
    assert b == m * (b / m) + b % m;
  }

  // ---------------------------------------------------------------------
  // The hash
  // ---------------------------------------------------------------------

  /**
   * The hash as `calculateHash` computes it (lines 15-21): Horner's rule,
   * reduced modulo the prime after every character.
   */
  function Hash(s: seq<Byte>): (h: int)
    ensures 0 <= h < Prime
  {
    if s == [] then 0 else (Hash(s[..|s| - 1]) * Base + s[|s| - 1]) % Prime
  }

  /** The unreduced polynomial value: the sum of s[k] * 256^(|s|-1-k). */
  function Poly(s: seq<Byte>): int
  {
    if s == [] then 0 else s[0] * Pow(Base, |s| - 1) + Poly(s[1..])
  }

  /** Appending a character is one Horner step of the polynomial. */
  lemma {:induction false} PolySnoc(s: seq<Byte>, c: Byte)
    ensures Poly(s + [c]) == Poly(s) * Base + c
  {
    if s == [] {
      assert Poly([c]) == c * Pow(Base, 0) + Poly([]);
    } else {
      assert (s + [c])[1..] == s[1..] + [c];
      PolySnoc(s[1..], c);
      assert Pow(Base, |s|) == Base * Pow(Base, |s| - 1);
      calc {
        Poly(s + [c]);
        s[0] * Pow(Base, |s|) + Poly(s[1..] + [c]);
        s[0] * (Base * Pow(Base, |s| - 1)) + Poly(s[1..]) * Base + c;
        (s[0] * Pow(Base, |s| - 1) + Poly(s[1..])) * Base + c;
      }
    }
  }

  /** `calculateHash` computes the polynomial hash Σ s[k]·256^(|s|-1-k) mod 101. */
  lemma {:induction false} HashIsPolynomial(s: seq<Byte>)
    ensures Hash(s) == Poly(s) % Prime
  {
    if s != [] {
      var init, last := s[..|s| - 1], s[|s| - 1];
      assert s == init + [last];
      HashIsPolynomial(init);
      PolySnoc(init, last);
      var p := Poly(init);
      SameRemainder(p, Hash(init), Prime);
      var k := p / Prime - Hash(init) / Prime;
      assert p * Base + last == Hash(init) * Base + last + Prime * (k * Base);
      ModAddMultiple(Hash(init) * Base + last, Prime, k * Base);
    }
  }

  /** Dropping the first character of a window removes its leading term. */
  lemma PolyCons(s: seq<Byte>)
    requires s != []
    ensures Poly(s) == s[0] * Pow(Base, |s| - 1) + Poly(s[1..])
  {
  }

  /**
   * The rolling update of line 53, on unreduced values: the next window's
   * polynomial is obtained from the current one by removing the leading
   * character's term, shifting by the base and adding the new character.
   */
  lemma RollPoly(w: seq<Byte>, c: Byte)
    requires w != []
    ensures Poly(w[1..] + [c]) == Base * (Poly(w) - w[0] * Pow(Base, |w| - 1)) + c
  {
    PolyCons(w);
    PolySnoc(w[1..], c);
  }

  /** The rolling update respects congruence modulo the prime in both operands. */
  lemma RollCongruent(a: int, a': int, b: int, b': int, t: int, c: int)
    requires a % Prime == a' % Prime && b % Prime == b' % Prime
    ensures (Base * (a - t * b) + c) % Prime == (Base * (a' - t * b') + c) % Prime
  {
    SameRemainder(a, a', Prime);
    SameRemainder(b, b', Prime);
    var ka, kb := a / Prime - a' / Prime, b / Prime - b' / Prime;
    assert t * b == t * b' + Prime * (t * kb);
    assert Base * (a - t * b) + c == Base * (a' - t * b') + c + Prime * (Base * ka - Base * (t * kb));
    ModAddMultiple(Base * (a' - t * b') + c, Prime, Base * ka - Base * (t * kb));
  }

  /**
   * The rolling update is correct on reduced values: with `h` congruent to
   * 256^(|w|-1), the update of line 53 applied to the current window's hash,
   * followed by the correction of lines 55-57, is the next window's hash.
   */
  lemma RollHash(w: seq<Byte>, c: Byte, h: int)
    requires w != []
    requires h == Pow(Base, |w| - 1) % Prime
    ensures Corrected(Base * (Hash(w) - w[0] * h) + c) == Hash(w[1..] + [c])
  {
    var w' := w[1..] + [c];
    RollPoly(w, c);
    HashIsPolynomial(w');
    HashIsPolynomial(w);
    RollArith(Hash(w), Poly(w), h, Pow(Base, |w| - 1), w[0], c, Hash(w'), Poly(w'));
  }

  /** The arithmetic core of RollHash, on plain integers. */
  lemma RollArith(a: int, p: int, h: int, pw: int, t: int, c: int, a': int, p': int)
    requires a == p % Prime && h == pw % Prime
    requires p' == Base * (p - t * pw) + c && a' == p' % Prime
    ensures Corrected(Base * (a - t * h) + c) == a'
  {
    var v := Base * (a - t * h) + c;
    CorrectedRemainder(v, Prime);
    ModUnique(a, Prime, 0, a);
    ModUnique(h, Prime, 0, h);
    RollCongruent(a, p, h, pw, t, c);
  }

  /** The window at i + 1 is the window at i without its first character, plus the next one. */
  lemma WindowShift(text: seq<Byte>, i: nat, m: nat)
    requires 1 <= m && i + m < |text|
    ensures text[i..i + m][1..] + [text[i + m]] == text[i + 1..i + 1 + m]
  {
  }

  /** One step of the precomputation loop of lines 37-39. */
  lemma PowStep(k: nat)
    ensures (Pow(Base, k) % Prime * Base) % Prime == Pow(Base, k + 1) % Prime
  {
    var p := Pow(Base, k);
    SameRemainder(p, p % Prime, Prime);
    ModUnique(p % Prime, Prime, 0, p % Prime);
    assert Pow(Base, k + 1) == p % Prime * Base + Prime * (Base * (p / Prime - p % Prime / Prime));
    ModAddMultiple(p % Prime * Base, Prime, Base * (p / Prime - p % Prime / Prime));
  }

  /** `calculateHash(str, length)`: the loop of lines 17-19. */
  method CalculateHash(str: seq<Byte>, length: nat) returns (hash: int)
    requires length <= |str|
    ensures hash == Hash(str[..length])
    ensures 0 <= hash < Prime
  {
    hash := 0;
    var i := 0;
    while i < length
      invariant 0 <= i <= length
      invariant hash == Hash(str[..i])
    {
      assert str[..i + 1][..i] == str[..i];
      hash := (hash * Base + str[i]) % Prime;
      i := i + 1;
    }
  }

  /**
   * Lines 35-39: the weight of a window's leading character,
   * 256^(patternLen-1) reduced modulo the prime.
   */
  method LeadingWeight(patternLen: nat) returns (h: int)
    requires patternLen >= 1
    ensures h == Pow(Base, patternLen - 1) % Prime
  {
    h := 1;
    var k := 0;
    while k < patternLen - 1
      invariant 0 <= k <= patternLen - 1
      invariant h == Pow(Base, k) % Prime
    {
      PowStep(k);
      h := (h * Base) % Prime;
      k := k + 1;
    }
  }

  // ---------------------------------------------------------------------
  // The occurrences of a pattern: the specification of the search
  // ---------------------------------------------------------------------

  /** The pattern occurs in the text at position i. */
  predicate MatchAt(text: seq<Byte>, pattern: seq<Byte>, i: int)
  {
    0 <= i && i + |pattern| <= |text| && text[i..i + |pattern|] == pattern
  }

  /** The positions below n at which the pattern occurs, in increasing order. */
  function OccurrencesBelow(text: seq<Byte>, pattern: seq<Byte>, n: int): seq<int>
    decreases if n < 0 then 0 else n
  {
    if n <= 0 then []
    else OccurrencesBelow(text, pattern, n - 1) + (if MatchAt(text, pattern, n - 1) then [n - 1] else [])
  }

  /** Every position at which the pattern occurs in the text, in increasing order. */
  function Occurrences(text: seq<Byte>, pattern: seq<Byte>): seq<int>
  {
    OccurrencesBelow(text, pattern, |text| - |pattern| + 1)
  }

  lemma {:induction false} OccurrencesBelowExact(text: seq<Byte>, pattern: seq<Byte>, n: int, i: int)
    ensures i in OccurrencesBelow(text, pattern, n) <==> i < n && MatchAt(text, pattern, i)
    decreases if n < 0 then 0 else n
  {
    if n > 0 {
      OccurrencesBelowExact(text, pattern, n - 1, i);
    }
  }

  lemma {:induction false} OccurrencesBelowLength(text: seq<Byte>, pattern: seq<Byte>, n: int)
    ensures |OccurrencesBelow(text, pattern, n)| <= if n < 0 then 0 else n
    decreases if n < 0 then 0 else n
  {
    if n > 0 {
      OccurrencesBelowLength(text, pattern, n - 1);
    }
  }

  lemma {:induction false} OccurrencesBelowIncreasing(text: seq<Byte>, pattern: seq<Byte>, n: int)
    ensures forall a, b :: 0 <= a < b < |OccurrencesBelow(text, pattern, n)| ==>
              OccurrencesBelow(text, pattern, n)[a] < OccurrencesBelow(text, pattern, n)[b]
    ensures forall a :: 0 <= a < |OccurrencesBelow(text, pattern, n)| ==>
              0 <= OccurrencesBelow(text, pattern, n)[a] < n
    ensures |OccurrencesBelow(text, pattern, n)| <= if n < 0 then 0 else n
    decreases if n < 0 then 0 else n
  {
    if n > 0 {
      OccurrencesBelowIncreasing(text, pattern, n - 1);
    }
  }

  /**
   * Soundness and completeness: a position is reported exactly when the
   * pattern occurs there (the character check of line 45 rules out hash
   * collisions; the scan of line 42 visits every candidate position).
   */
  lemma OccurrencesExact(text: seq<Byte>, pattern: seq<Byte>, i: int)
    ensures i in Occurrences(text, pattern) <==> MatchAt(text, pattern, i)
  {
    OccurrencesBelowExact(text, pattern, |text| - |pattern| + 1, i);
  }

  /**
   * The reported positions are strictly increasing, and there are at most
   * `textLen - patternLen + 1` of them: the room the caller's array needs.
   */
  lemma OccurrencesOrdered(text: seq<Byte>, pattern: seq<Byte>)
    ensures var occ := Occurrences(text, pattern);
            (forall a, b :: 0 <= a < b < |occ| ==> occ[a] < occ[b])
            && |occ| <= if |pattern| > |text| then 0 else |text| - |pattern| + 1
  {
    OccurrencesBelowIncreasing(text, pattern, |text| - |pattern| + 1);
  }

  // ---------------------------------------------------------------------
  // The search
  // ---------------------------------------------------------------------

  /**
   * Lines 52-58: slides the hashed window of length m from position i to
   * position i + 1.
   */
  method RollWindow(text: seq<Byte>, i: nat, m: nat, textHash: int, h: int) returns (next: int)
    requires 1 <= m && i + m < |text|
    requires textHash == Hash(text[i..i + m]) && h == Pow(Base, m - 1) % Prime
    ensures next == Hash(text[i + 1..i + 1 + m])
    ensures 0 <= next < Prime
  {
    WindowShift(text, i, m);
    RollHash(text[i..i + m], text[i + m], h);
    next := CRem(Base * (textHash - text[i] * h) + text[i + m], Prime);
    if next < 0 {
      next := next + Prime;
    }
  }

  /**
   * Lines 43-45: comparing hashes first and characters second finds exactly
   * the matches, because equal windows have equal hashes.
   */
  lemma HashFilterKeepsMatches(text: seq<Byte>, pattern: seq<Byte>, i: int, textHash: int, patternHash: int)
    requires 0 <= i && i + |pattern| <= |text|
    requires textHash == Hash(text[i..i + |pattern|]) && patternHash == Hash(pattern)
    ensures (patternHash == textHash && text[i..i + |pattern|] == pattern) <==> MatchAt(text, pattern, i)
  {
  }

  /** The slots of `a` from `from` on still hold what `orig` recorded. */
  ghost predicate Untouched(a: array<int>, orig: seq<int>, from: int)
    reads a
  {
    |orig| == a.Length && forall k :: 0 <= from <= k < a.Length ==> a[k] == orig[k]
  }

  /**
   * Lines 43-50: records position i when the window there has the pattern's
   * hash and, character by character, is the pattern. `motifIndex` holds the
   * occurrences below i in its first `nbMotifFound` slots and afterwards
   * holds those below i + 1; the slots past them keep their old values.
   */
  method Examine(text: seq<Byte>, pattern: seq<Byte>, i: int, textHash: int, patternHash: int,
                 motifIndex: array<int>, nbMotifFound: int, ghost orig: seq<int>) returns (nb: int)
    requires 0 <= i && i + |pattern| <= |text|
    requires textHash == Hash(text[i..i + |pattern|]) && patternHash == Hash(pattern)
    requires nbMotifFound == |OccurrencesBelow(text, pattern, i)| < motifIndex.Length
    requires motifIndex[..nbMotifFound] == OccurrencesBelow(text, pattern, i)
    requires |orig| == motifIndex.Length && Untouched(motifIndex, orig, nbMotifFound)
    modifies motifIndex
    ensures nb == |OccurrencesBelow(text, pattern, i + 1)|
    ensures motifIndex[..nb] == OccurrencesBelow(text, pattern, i + 1)
    ensures Untouched(motifIndex, orig, nb)
  {
    HashFilterKeepsMatches(text, pattern, i, textHash, patternHash);
    nb := nbMotifFound;
    if patternHash == textHash {
      if text[i..i + |pattern|] == pattern {
        motifIndex[nb] := i;
        nb := nb + 1;
      }
    }
  }

  /**
   * The state of the loop of lines 42-59 before position i: while a window
   * starts at i, `textHash` is its hash; the first `nb` slots of
   * `motifIndex` hold the occurrences below i, and the slots after them
   * still hold what `orig` recorded.
   */
  ghost predicate Scanned(text: seq<Byte>, pattern: seq<Byte>, motifIndex: array<int>, orig: seq<int>,
                          i: int, textHash: int, nb: int)
    reads motifIndex
  {
    && 0 <= i
    && (i + |pattern| <= |text| ==> textHash == Hash(text[i..i + |pattern|]))
    && nb == |OccurrencesBelow(text, pattern, i)| <= i
    && nb <= motifIndex.Length
    && motifIndex[..nb] == OccurrencesBelow(text, pattern, i)
    && Untouched(motifIndex, orig, nb)
  }

  /**
   * One turn of the loop of lines 42-59 at position i: examine the window
   * there, then roll the hash on to the window at i + 1 if there is one.
   */
  method Advance(text: seq<Byte>, pattern: seq<Byte>, i: int, textHash: int, patternHash: int, h: int,
                 motifIndex: array<int>, nbMotifFound: int, ghost orig: seq<int>) returns (nb: int, nextHash: int)
    requires |pattern| >= 1 && i + |pattern| <= |text| && |text| - |pattern| + 1 <= motifIndex.Length
    requires patternHash == Hash(pattern) && h == Pow(Base, |pattern| - 1) % Prime
    requires Scanned(text, pattern, motifIndex, orig, i, textHash, nbMotifFound)
    modifies motifIndex
    ensures nbMotifFound <= nb
    ensures Scanned(text, pattern, motifIndex, orig, i + 1, nextHash, nb)
  {
    OccurrencesBelowLength(text, pattern, i);
    nb := Examine(text, pattern, i, textHash, patternHash, motifIndex, nbMotifFound, orig);
    nextHash := textHash;
    if i + |pattern| < |text| {
      nextHash := RollWindow(text, i, |pattern|, textHash, h);
    }
  }

  /**
   * `rabinKarp(text, pattern, motifIndex)` without its console output: writes
   * the positions of every occurrence into `motifIndex`, in increasing
   * order, and returns their number. Nothing past that number is written.
   */
  method Search(text: seq<Byte>, pattern: seq<Byte>, motifIndex: array<int>) returns (nbMotifFound: int)
    requires |pattern| >= 1
    requires |text| - |pattern| + 1 <= motifIndex.Length
    modifies motifIndex
    ensures 0 <= nbMotifFound <= motifIndex.Length
    ensures motifIndex[..nbMotifFound] == Occurrences(text, pattern)
    ensures motifIndex[nbMotifFound..] == old(motifIndex[nbMotifFound..])
  {
    var textLen, patternLen := |text|, |pattern|;
    var patternHash := CalculateHash(pattern, patternLen);
    var textHash := 0;
    if patternLen <= textLen {
      textHash := CalculateHash(text, patternLen);
    }
    var h := LeadingWeight(patternLen);
    nbMotifFound := 0;
    assert pattern[..patternLen] == pattern;
    ghost var orig := motifIndex[..];

    var i := 0;
    while i <= textLen - patternLen
      invariant i == 0 || i <= textLen - patternLen + 1
      invariant Scanned(text, pattern, motifIndex, orig, i, textHash, nbMotifFound)
    {
      nbMotifFound, textHash := Advance(text, pattern, i, textHash, patternHash, h, motifIndex, nbMotifFound, orig);
      i := i + 1;
    }
    assert i == textLen - patternLen + 1 || (i == 0 && patternLen > textLen);
    assert motifIndex[nbMotifFound..] == orig[nbMotifFound..];
  }
}
