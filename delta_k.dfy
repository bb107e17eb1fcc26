/** The Delta-K engine: the unkeyed trit substitution, the keyed
    (Vigenère-style, add-mod-3) substitution and the key check. */
module DeltaK {
  import opened Ascii
  import opened Symbols
  import opened DeltaKTables

  // ---------------------------------------------------------------------
  // Unkeyed encryption
  // ---------------------------------------------------------------------

  /** What the unkeyed cipher writes for one plaintext character. */
  function EncryptChar(c: char): seq<Symbol> {
    if IsLetter(c) then AsSymbols(LetterRun(AbcPosition(c)))
    else if c == ' ' then [Lit('/')]
    else [Lit(c)]
  }

  /** The unkeyed ciphertext of a plaintext: the characters' outputs in order. */
  function EncryptSpec(p: string): seq<Symbol> {
    if p == [] then [] else EncryptSpec(p[..|p| - 1]) + EncryptChar(p[|p| - 1])
  }

  /** `encrypt(plaintext)`: appends three glyphs per letter, `/` per space and
      the character itself otherwise. */
  method Encrypt(plaintext: string) returns (ciphertext: seq<Symbol>)
    ensures ciphertext == EncryptSpec(plaintext)
  {
    ciphertext := [];
    for i := 0 to |plaintext|
      invariant ciphertext == EncryptSpec(plaintext[..i])
    {
      var currentChar := plaintext[i];
      assert plaintext[..i + 1][..i] == plaintext[..i];
      if IsLetter(currentChar) {
        var abcValue := AbcPosition(currentChar);
        TritRow(abcValue);
        ghost var run, written := LetterRun(abcValue), ciphertext;
        for j := 0 to Base
          invariant ciphertext == written + AsSymbols(run[..j])
        {
          LetterRunGlyph(abcValue, j);
          AppendGlyph(ciphertext, written, run, j, GlyphTable[TritAlphabet[abcValue][j]]);
          ciphertext := ciphertext + [GlyphSym(GlyphTable[TritAlphabet[abcValue][j]])];
        }
        AppendedRun(written, run);
      } else if currentChar == ' ' {
        ciphertext := ciphertext + [Lit('/')];
      } else {
        ciphertext := ciphertext + [Lit(currentChar)];
      }
    }
    assert plaintext[..|plaintext|] == plaintext;
  }

  /** Unkeyed encryption works character by character: the ciphertext of a
      concatenation is the concatenation of the ciphertexts. */
  lemma {:induction false} EncryptAppend(p: string, q: string)
    ensures EncryptSpec(p + q) == EncryptSpec(p) + EncryptSpec(q)
    decreases |q|
  {
    if q != [] {
      var q' := q[..|q| - 1];
      assert (p + q)[..|p + q| - 1] == p + q';
      EncryptAppend(p, q');
    } else {
      assert p + q == p;
    }
  }

  /** What each plaintext character becomes. With `off` the length of the
      ciphertext of the characters before position i: a letter becomes the
      three glyphs of its run, `GLYPHS[TRIT_ALPHABET[abcPosition(c)][j]]` (see
      `LetterRunGlyph`), a space becomes `/` and any other character is copied. */
  lemma {:induction false} EncryptAt(p: string, i: nat)
    requires i < |p|
    ensures var off := |EncryptSpec(p[..i])|;
      if IsLetter(p[i]) then
        off + Base <= |EncryptSpec(p)| &&
        EncryptSpec(p)[off..off + Base] == AsSymbols(LetterRun(AbcPosition(p[i])))
      else
        off < |EncryptSpec(p)| &&
        EncryptSpec(p)[off] == (if p[i] == ' ' then Lit('/') else Lit(p[i]))
  {
    assert p == p[..i] + [p[i]] + p[i + 1..];
    EncryptAppend(p[..i] + [p[i]], p[i + 1..]);
    EncryptAppend(p[..i], [p[i]]);
    assert [p[i]][..0] == [];
  }

  /** The empty plaintext encrypts to nothing, and the ciphertext has three
      symbols per letter and one per other character. */
  lemma {:induction false} EncryptLength(p: string)
    ensures |EncryptSpec(p)| == 3 * LetterCount(p) + (|p| - LetterCount(p))
    ensures p == [] ==> EncryptSpec(p) == []
  {
    if p != [] {
      EncryptLength(p[..|p| - 1]);
    }
  }

  /** Encryption ignores case: upper-casing the plaintext first changes nothing. */
  lemma {:induction false} EncryptCaseInsensitive(p: string)
    ensures EncryptSpec(Upper(p)) == EncryptSpec(p)
  {
    if p != [] {
      var p' := p[..|p| - 1];
      assert Upper(p)[..|p| - 1] == Upper(p');
      EncryptCaseInsensitive(p');
      var c := p[|p| - 1];
      if IsLetter(c) {
        AbcPositionCaseInsensitive(c, ToUpper(c));
      }
    }
  }

  /** A plaintext whose ciphertext can be read back: upper-case letters, and
      other ASCII characters that are neither a space nor `/` (both become
      `/`). A glyph character in the plaintext would be copied as the same
      bytes a glyph run is written with, so only ASCII text is readable. */
  predicate Readable(p: string) {
    forall i :: 0 <= i < |p| ==> ReadableChar(p[i])
  }

  predicate ReadableChar(c: char) {
    IsUpper(c) || (!IsLetter(c) && c != ' ' && c != '/' && c as int < 128)
  }

  /** A readable character can be read back from what it encrypts to. */
  lemma {:induction false} EncryptCharInjective(c: char, d: char)
    requires ReadableChar(c) && ReadableChar(d)
    requires EncryptChar(c) == EncryptChar(d)
    ensures c == d
  {
    assert IsLetter(c) <==> IsLetter(d) by {
      assert EncryptChar(c)[0].GlyphSym? <==> IsLetter(c);
      assert EncryptChar(d)[0].GlyphSym? <==> IsLetter(d);
    }
    if IsLetter(c) {
      LetterRunInjective(AbcPosition(c), AbcPosition(d));
    } else {
      assert EncryptChar(c)[0] == Lit(c);
    }
  }

  /** Two ciphertexts that agree and end in the output of readable characters
      end in the output of the same character. */
  lemma {:induction false} SameLastChar(x: seq<Symbol>, c: char, y: seq<Symbol>, d: char)
    requires ReadableChar(c) && ReadableChar(d)
    requires x + EncryptChar(c) == y + EncryptChar(d)
    ensures c == d && x == y
  {
    var e := x + EncryptChar(c);
    assert e[|e| - 1].GlyphSym? <==> IsLetter(c);
    assert e[|e| - 1].GlyphSym? <==> IsLetter(d);
    assert EncryptChar(c) == e[|x|..];
    assert EncryptChar(d) == e[|y|..];
    EncryptCharInjective(c, d);
    assert x == e[..|x|] && y == e[..|y|];
  }

  /** Unkeyed encryption is injective on readable plaintexts, in particular on
      strings of upper-case letters: the code has a fixed width of three glyphs
      and distinct letters have distinct rows. */
  lemma {:induction false} EncryptInjective(p: string, q: string)
    requires Readable(p) && Readable(q)
    requires EncryptSpec(p) == EncryptSpec(q)
    ensures p == q
    decreases |p|
  {
    if p != [] && q != [] {
      var p', c := p[..|p| - 1], p[|p| - 1];
      var q', d := q[..|q| - 1], q[|q| - 1];
      assert c == d && EncryptSpec(p') == EncryptSpec(q') by {
        assert ReadableChar(c) && ReadableChar(d);
        SameLastChar(EncryptSpec(p'), c, EncryptSpec(q'), d);
      }
      assert p' == q' by {
        assert Readable(p') && Readable(q');
        EncryptInjective(p', q');
      }
      assert p == p' + [c] && q == q' + [d];
    } else {
      EncryptLength(p);
      EncryptLength(q);
    }
  }

  // ---------------------------------------------------------------------
  // Keyed encryption
  // ---------------------------------------------------------------------

  /** What `keyValidation` accepts: a non-empty key of letters only. */
  predicate ValidKey(key: string) {
    key != [] && forall i :: 0 <= i < |key| ==> IsLetter(key[i])
  }

  /** `keyValidation(key)`: false for the empty key, false as soon as a
      non-letter is seen, true otherwise. */
  method KeyValidation(key: string) returns (ok: bool)
    ensures ok <==> ValidKey(key)
    ensures key == [] ==> !ok
  {
    if |key| == 0 {
      return false;
    }
    for i := 0 to |key|
      invariant forall m :: 0 <= m < i ==> IsLetter(key[m])
    {
      if !IsLetter(key[i]) {
        return false;
      }
    }
    return true;
  }

  /** The trits of letter `a` added position by position to those of key
      letter `b`, modulo 3. */
  function KeyedRow(a: nat, b: nat): (row: seq<int>)
    requires a < AlphabetLength && b < AlphabetLength
    ensures |row| == Base && forall j :: 0 <= j < Base ==> 0 <= row[j] < Base
  {
    TritAlphabetEntriesAreTrits();
    seq(Base, j requires 0 <= j < Base => (TritAlphabet[a][j] + TritAlphabet[b][j]) % 3)
  }

  /** The glyph run the keyed cipher writes for plaintext letter `a` under key letter `b`. */
  function KeyedRun(a: nat, b: nat): (run: seq<Glyph>)
    requires a < AlphabetLength && b < AlphabetLength
    ensures |run| == Base
  {
    GlyphRun(KeyedRow(a, b))
  }

  /** Glyph j of the keyed run is `GLYPHS[(plainTrit[j] + keyTrit[j]) % 3]`;
      the index is always a trit, and reading the glyph back gives that sum. */
  lemma KeyedRunGlyph(a: nat, b: nat, j: nat)
    requires a < AlphabetLength && b < AlphabetLength && j < Base
    ensures |TritAlphabet[a]| == |TritAlphabet[b]| == Base
    ensures 0 <= (TritAlphabet[a][j] + TritAlphabet[b][j]) % 3 < Base
    ensures KeyedRun(a, b)[j] == GlyphTable[(TritAlphabet[a][j] + TritAlphabet[b][j]) % 3]
    ensures TritOf(KeyedRun(a, b)[j]) == (TritAlphabet[a][j] + TritAlphabet[b][j]) % 3
  {
    TritRow(a);
    TritRow(b);
    assert KeyedRow(a, b)[j] == (TritAlphabet[a][j] + TritAlphabet[b][j]) % 3;
  }

  /** What the keyed cipher writes for one character when `k` letters came before it. */
  function KeyedChar(c: char, key: string, k: nat): seq<Symbol>
    requires ValidKey(key)
  {
    if IsLetter(c) then AsSymbols(KeyedRun(AbcPosition(c), AbcPosition(key[k % |key|])))
    else EncryptChar(c)
  }

  /** The keyed ciphertext: the key index counts the letters seen so far. */
  function KeyedSpec(p: string, key: string): seq<Symbol>
    requires ValidKey(key)
  {
    if p == [] then []
    else KeyedSpec(p[..|p| - 1], key) + KeyedChar(p[|p| - 1], key, LetterCount(p[..|p| - 1]))
  }

  /** The inner loop of the keyed `encrypt`: writes, for j = 0, 1, 2, the glyph
      `GLYPHS[(TRIT_ALPHABET[abcVal][j] + TRIT_ALPHABET[keyAbcVal][j]) % 3]`
      after what was already written. */
  method WriteKeyedRun(written: seq<Symbol>, abcVal: nat, keyAbcVal: nat) returns (ciphertext: seq<Symbol>)
    requires abcVal < AlphabetLength && keyAbcVal < AlphabetLength
    ensures ciphertext == written + AsSymbols(KeyedRun(abcVal, keyAbcVal))
  {
    ghost var run := KeyedRun(abcVal, keyAbcVal);
    ciphertext := written;
    for j := 0 to Base
      invariant ciphertext == written + AsSymbols(run[..j])
    {
      TritRow(abcVal);
      TritRow(keyAbcVal);
      var keyedValue := TritAlphabet[abcVal][j] + TritAlphabet[keyAbcVal][j];
      keyedValue := keyedValue % 3;
      assert GlyphTable[keyedValue] == run[j] by {
        KeyedRunGlyph(abcVal, keyAbcVal, j);
      }
      AppendGlyph(ciphertext, written, run, j, GlyphTable[keyedValue]);
      ciphertext := ciphertext + [GlyphSym(GlyphTable[keyedValue])];
    }
    AppendedRun(written, run);
  }

  /** `encrypt(plaintext, key)`: for each letter, combines its trits with those
      of the key letter `key[keyIndex % key.length()]` and advances `keyIndex`;
      spaces and other characters are written as in the unkeyed cipher. The key
      must pass `keyValidation`: an empty key divides by zero and a non-letter
      indexes `TRIT_ALPHABET` out of range. */
  method EncryptKeyed(plaintext: string, key: string) returns (ciphertext: seq<Symbol>)
    requires ValidKey(key)
    ensures ciphertext == KeyedSpec(plaintext, key)
  {
    ciphertext := [];
    var keyIndex: nat := 0;
    for i := 0 to |plaintext|
      invariant keyIndex == LetterCount(plaintext[..i])
      invariant ciphertext == KeyedSpec(plaintext[..i], key)
    {
      var currentChar := plaintext[i];
      assert plaintext[..i + 1][..i] == plaintext[..i];
      if IsLetter(currentChar) {
        var currentKeyChar := key[keyIndex % |key|];
        var keyAbcVal := AbcPosition(currentKeyChar);
        var abcVal := AbcPosition(currentChar);
        ciphertext := WriteKeyedRun(ciphertext, abcVal, keyAbcVal);
        assert ciphertext == KeyedSpec(plaintext[..i + 1], key);
        keyIndex := keyIndex + 1;
      } else if currentChar == ' ' {
        ciphertext := ciphertext + [Lit('/')];
      } else {
        ciphertext := ciphertext + [Lit(currentChar)];
      }
    }
    assert plaintext[..|plaintext|] == plaintext;
  }

  /** The keyed ciphertext of a prefix of the plaintext is a prefix of the
      keyed ciphertext: output once written is never revised. */
  lemma {:induction false} KeyedPrefix(p: string, key: string, i: nat)
    requires ValidKey(key) && i <= |p|
    ensures KeyedSpec(p[..i], key) <= KeyedSpec(p, key)
    decreases |p| - i
  {
    if i < |p| {
      var p' := p[..|p| - 1];
      assert p'[..i] == p[..i];
      KeyedPrefix(p', key, i);
    } else {
      assert p[..i] == p;
    }
  }

  /** The k-th letter of the plaintext (counting letters only, from 0) is
      combined with key letter `key[k % |key|]`: with `off` the length of the
      output for the characters before it, the next three symbols are the
      keyed run of the two letters, whose glyphs are
      `GLYPHS[(plainTrit[j] + keyTrit[j]) % 3]` (see `KeyedRun`). */
  lemma {:induction false} KeyedLetterAt(p: string, key: string, i: nat)
    requires ValidKey(key) && i < |p| && IsLetter(p[i])
    ensures var off := |KeyedSpec(p[..i], key)|;
      var k := LetterCount(p[..i]);
      var a, b := AbcPosition(p[i]), AbcPosition(key[k % |key|]);
      off + Base <= |KeyedSpec(p, key)| &&
      KeyedSpec(p, key)[off..off + Base] == AsSymbols(KeyedRun(a, b))
  {
    var k := LetterCount(p[..i]);
    var a, b := AbcPosition(p[i]), AbcPosition(key[k % |key|]);
    var q := p[..i + 1];
    var run := AsSymbols(KeyedRun(a, b));
    assert KeyedSpec(q, key) == KeyedSpec(p[..i], key) + run by {
      assert q[..|q| - 1] == p[..i];
    }
    KeyedPrefix(p, key, i + 1);
    PrefixSlice(KeyedSpec(p[..i], key), run, KeyedSpec(p, key));
  }

  /** The keyed cipher writes every character that is not a letter as the
      unkeyed cipher does: a space as `/`, anything else unchanged; it does not
      advance the key index. */
  lemma {:induction false} KeyedNonLetterAt(p: string, key: string, i: nat)
    requires ValidKey(key) && i < |p| && !IsLetter(p[i])
    ensures var off := |KeyedSpec(p[..i], key)|;
      off < |KeyedSpec(p, key)| &&
      KeyedSpec(p, key)[off] == (if p[i] == ' ' then Lit('/') else Lit(p[i])) &&
      LetterCount(p[..i + 1]) == LetterCount(p[..i])
  {
    KeyedPrefix(p, key, i + 1);
    assert p[..i + 1][..i] == p[..i];
  }

  /** The keyed and the unkeyed ciphertexts of a plaintext have the same length
      (three glyphs per letter, one symbol otherwise), agree wherever either has
      a literal, and so hold glyphs at the same places. */
  lemma {:induction false} KeyedMatchesUnkeyed(p: string, key: string)
    requires ValidKey(key)
    ensures |KeyedSpec(p, key)| == |EncryptSpec(p)|
    ensures forall n :: 0 <= n < |EncryptSpec(p)| && (EncryptSpec(p)[n].Lit? || KeyedSpec(p, key)[n].Lit?) ==>
      KeyedSpec(p, key)[n] == EncryptSpec(p)[n]
  {
    if p != [] {
      var p', c := p[..|p| - 1], p[|p| - 1];
      KeyedMatchesUnkeyed(p', key);
      var x, y := KeyedChar(c, key, LetterCount(p')), EncryptChar(c);
      assert |x| == |y|;
      assert forall n :: 0 <= n < |y| ==> (x[n].Lit? || y[n].Lit?) ==> x[n] == y[n];
    }
  }

  /** Two glyphs added as trits, modulo 3. */
  function AddGlyphs(g: Glyph, h: Glyph): Glyph {
    GlyphTable[(TritOf(g) + TritOf(h)) % 3]
  }

  /** Adding the same glyph to two glyphs keeps them apart. */
  lemma AddGlyphsCancel(g: Glyph, g': Glyph, h: Glyph)
    ensures AddGlyphs(g, h) == AddGlyphs(g', h) <==> g == g'
  {
  }

  /** The keyed run is the plaintext letter's run added glyph by glyph to the
      key letter's run. */
  lemma KeyedRunAddsRuns(a: nat, b: nat, j: nat)
    requires a < AlphabetLength && b < AlphabetLength && j < Base
    ensures KeyedRun(a, b)[j] == AddGlyphs(LetterRun(a)[j], LetterRun(b)[j])
  {
    var t, u := TritAlphabet[a][j], TritAlphabet[b][j];
    assert TritOf(LetterRun(a)[j]) == t && TritOf(LetterRun(b)[j]) == u by {
      LetterRunGlyph(a, j);
      LetterRunGlyph(b, j);
    }
    assert KeyedRun(a, b)[j] == GlyphTable[(t + u) % 3] by {
      KeyedRunGlyph(a, b, j);
    }
  }

  /** For a fixed key letter the keyed run is injective in the plaintext
      letter: adding a key trit modulo 3 loses nothing. */
  lemma {:induction false} KeyedRunInjective(a: nat, a': nat, b: nat)
    requires a < AlphabetLength && a' < AlphabetLength && b < AlphabetLength
    ensures KeyedRun(a, b) == KeyedRun(a', b) <==> a == a'
  {
    if KeyedRun(a, b) == KeyedRun(a', b) {
      forall j | 0 <= j < Base ensures LetterRun(a)[j] == LetterRun(a')[j] {
        KeyedRunAddsRuns(a, b, j);
        KeyedRunAddsRuns(a', b, j);
        AddGlyphsCancel(LetterRun(a)[j], LetterRun(a')[j], LetterRun(b)[j]);
      }
      LetterRunInjective(a, a');
    }
  }

  /** A positive multiple of a positive number is at least that number. */
  lemma {:induction false} MultipleAtLeast(d: nat, n: nat)
    requires d >= 1
    ensures d * n >= n
  {
    if d > 1 {
      MultipleAtLeast(d - 1, n);
      assert d * n == (d - 1) * n + n;
    }
  }

  /** Adding the period does not change a remainder. */
  lemma ModPeriod(k: nat, n: nat)
    requires n > 0
    ensures (k + n) % n == k % n
  {
    var q, r := k / n, k % n;
    var q', r' := (k + n) / n, (k + n) % n;
    var d := q' - q - 1;
    assert d * n == r - r' by {
      assert k == q * n + r && k + n == q' * n + r';
      assert d * n == q' * n - q * n - n;
    }
    if d >= 1 {
      MultipleAtLeast(d, n);
    }
  }

  /** The keyed cipher is periodic in the key: the same letter, up to case,
      at letter counts k and k + |key| is written as the same glyph run. */
  lemma {:induction false} KeyedPeriodic(p: string, key: string, i: nat, i': nat)
    requires ValidKey(key) && i < |p| && i' < |p|
    requires IsLetter(p[i]) && ToUpper(p[i']) == ToUpper(p[i])
    requires LetterCount(p[..i']) == LetterCount(p[..i]) + |key|
    ensures var off, off' := |KeyedSpec(p[..i], key)|, |KeyedSpec(p[..i'], key)|;
      off + Base <= |KeyedSpec(p, key)| && off' + Base <= |KeyedSpec(p, key)| &&
      KeyedSpec(p, key)[off..off + Base] == KeyedSpec(p, key)[off'..off' + Base]
  {
    var k, k' := LetterCount(p[..i]), LetterCount(p[..i']);
    ModPeriod(k, |key|);
    assert k' % |key| == k % |key|;
    AbcPositionCaseInsensitive(p[i], p[i']);
    KeyedLetterAt(p, key, i);
    KeyedLetterAt(p, key, i');
  }

  /** The keyed ciphertext holds three glyphs per plaintext letter. */
  lemma {:induction false} KeyedGlyphCount(p: string, key: string)
    requires ValidKey(key)
    ensures GlyphCount(KeyedSpec(p, key)) == Base * LetterCount(p)
  {
    if p != [] {
      var p', c := p[..|p| - 1], p[|p| - 1];
      KeyedGlyphCount(p', key);
      var x := KeyedChar(c, key, LetterCount(p'));
      GlyphCountAppend(KeyedSpec(p', key), x);
      if IsLetter(c) {
        GlyphCountRun(KeyedRun(AbcPosition(c), AbcPosition(key[LetterCount(p') % |key|])));
      } else {
        assert x == [x[0]] && !x[0].GlyphSym?;
        assert GlyphCount(x) == GlyphCount(x[..0]);
      }
    }
  }

  /** The keyed output of a character: three glyphs for a letter, one literal otherwise. */
  lemma KeyedCharShape(c: char, key: string, k: nat)
    requires ValidKey(key)
    ensures |KeyedChar(c, key, k)| == if IsLetter(c) then Base else 1
    ensures KeyedChar(c, key, k)[|KeyedChar(c, key, k)| - 1].GlyphSym? <==> IsLetter(c)
  {
  }

  /** A non-empty readable plaintext is a readable plaintext followed by a
      readable character. */
  lemma ReadableSplit(p: string)
    requires Readable(p) && p != []
    ensures Readable(p[..|p| - 1]) && ReadableChar(p[|p| - 1])
    ensures p == p[..|p| - 1] + [p[|p| - 1]]
  {
  }

  /** The keyed ciphertext of a non-empty plaintext: that of all but the last
      character, then the output of the last character. */
  lemma KeyedSpecLast(p: string, key: string)
    requires ValidKey(key) && p != []
    ensures KeyedSpec(p, key) ==
      KeyedSpec(p[..|p| - 1], key) + KeyedChar(p[|p| - 1], key, LetterCount(p[..|p| - 1]))
  {
  }

  /** The empty plaintext has the empty keyed ciphertext, and the keyed
      ciphertext has three symbols per letter and one per other character. */
  lemma {:induction false} KeyedLength(p: string, key: string)
    requires ValidKey(key)
    ensures |KeyedSpec(p, key)| == Base * LetterCount(p) + (|p| - LetterCount(p))
    ensures p == [] <==> KeyedSpec(p, key) == []
  {
    if p != [] {
      KeyedLength(p[..|p| - 1], key);
      KeyedCharShape(p[|p| - 1], key, LetterCount(p[..|p| - 1]));
    }
  }

  /** Under the same key letter, a readable character can be read back from
      its keyed output. */
  lemma {:induction false} KeyedCharInjective(c: char, d: char, key: string, k: nat)
    requires ValidKey(key) && ReadableChar(c) && ReadableChar(d)
    requires KeyedChar(c, key, k) == KeyedChar(d, key, k)
    ensures c == d
  {
    KeyedCharShape(c, key, k);
    KeyedCharShape(d, key, k);
    if IsLetter(c) {
      var b := AbcPosition(key[k % |key|]);
      AsSymbolsInjective(KeyedRun(AbcPosition(c), b), KeyedRun(AbcPosition(d), b));
      KeyedRunInjective(AbcPosition(c), AbcPosition(d), b);
    } else {
      assert KeyedChar(c, key, k)[0] == Lit(c);
    }
  }

  /** Two ciphertexts that agree, whose glyph counts give the letter counts
      `k` and `k'`, and that end in the keyed outputs of readable characters
      at those counts, end in the output of the same character. */
  lemma {:induction false} KeyedSameLastChar(x: seq<Symbol>, c: char, k: nat, y: seq<Symbol>, d: char, k': nat, key: string)
    requires ValidKey(key) && ReadableChar(c) && ReadableChar(d)
    requires GlyphCount(x) == Base * k && GlyphCount(y) == Base * k'
    requires x + KeyedChar(c, key, k) == y + KeyedChar(d, key, k')
    ensures c == d && x == y
  {
    var u, v := KeyedChar(c, key, k), KeyedChar(d, key, k');
    KeyedCharShape(c, key, k);
    KeyedCharShape(d, key, k');
    SameLastSymbol(x, u, y, v);
    SameSplit(x, u, y, v);
    assert k == k' by {
      assert Base * k == Base * k';
    }
    assert KeyedChar(c, key, k) == KeyedChar(d, key, k);
    KeyedCharInjective(c, d, key, k);
  }

  /** Equal keyed ciphertexts of two non-empty readable plaintexts end in
      the output of the same character, after equal ciphertexts of the rest. */
  lemma {:induction false} KeyedSameLast(p: string, q: string, key: string)
    requires ValidKey(key) && p != [] && q != []
    requires ReadableChar(p[|p| - 1]) && ReadableChar(q[|q| - 1])
    requires KeyedSpec(p, key) == KeyedSpec(q, key)
    ensures p[|p| - 1] == q[|q| - 1]
    ensures KeyedSpec(p[..|p| - 1], key) == KeyedSpec(q[..|q| - 1], key)
  {
    var p', q' := p[..|p| - 1], q[..|q| - 1];
    KeyedSpecLast(p, key);
    KeyedSpecLast(q, key);
    KeyedGlyphCount(p', key);
    KeyedGlyphCount(q', key);
    KeyedSameLastChar(KeyedSpec(p', key), p[|p| - 1], LetterCount(p'),
                      KeyedSpec(q', key), q[|q| - 1], LetterCount(q'), key);
  }

  /** The keyed cipher can be read back: readable plaintexts with the same
      keyed ciphertext under the same key are equal. The number of glyphs
      before a position tells how many letters came before it, hence which
      key letter was used, and adding a key trit loses nothing. */
  lemma {:induction false} KeyedInjective(p: string, q: string, key: string)
    requires ValidKey(key) && Readable(p) && Readable(q)
    requires KeyedSpec(p, key) == KeyedSpec(q, key)
    ensures p == q
    decreases |p|
  {
    if p != [] && q != [] {
      ReadableSplit(p);
      ReadableSplit(q);
      KeyedSameLast(p, q, key);
      KeyedInjective(p[..|p| - 1], q[..|q| - 1], key);
    } else {
      KeyedLength(p, key);
      KeyedLength(q, key);
    }
  }
}
