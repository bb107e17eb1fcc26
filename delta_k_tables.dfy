/** The constant tables of the Delta-K engine: the glyph for each trit value
    and the 3-trit code of each letter. */
module DeltaKTables {
  import opened Symbols

  /** `ALPHABET_LENGTH`: the letters A-Z. */
  const AlphabetLength: nat := 26

  /** `BASE`: the code is base 3. */
  const Base: nat := 3

  /** `GLYPHS`: trit value 0, 1, 2 is written ▲, ▼, ◆. */
  const GlyphTable: seq<Glyph> := [Up, Down, Diamond]

  /** `TRIT_ALPHABET`: row i holds the three trits of letter i. */
  const TritAlphabet: seq<seq<int>> := [
    [0, 0, 1], [0, 0, 2], [0, 1, 0], [0, 1, 1], [0, 1, 2],
    [0, 2, 0], [0, 2, 1], [0, 2, 2], [1, 0, 0], [1, 0, 1],
    [1, 0, 2], [1, 1, 0], [1, 1, 1], [1, 1, 2], [1, 2, 0],
    [1, 2, 1], [1, 2, 2], [2, 0, 0], [2, 0, 1], [2, 0, 2],
    [2, 1, 0], [2, 1, 1], [2, 1, 2], [2, 2, 0], [2, 2, 1],
    [2, 2, 2]
  ]

  /** The value of a row of trits read as a base-3 numeral, most significant first. */
  function TritValue(row: seq<int>): int
    requires |row| == 3
  {
    row[0] * 9 + row[1] * 3 + row[2]
  }

  /** The three base-3 digits of `n`, most significant first. */
  function Base3Digits(n: nat): (row: seq<int>)
    requires n < 27
    ensures |row| == 3 && TritValue(row) == n
    ensures forall j :: 0 <= j < 3 ==> 0 <= row[j] < 3
  {
    [n / 9, n / 3 % 3, n % 3]
  }

  /** Every entry of the table is a trit, a digit 0..BASE-1. */
  lemma TritAlphabetEntriesAreTrits()
    ensures |TritAlphabet| == AlphabetLength
    ensures forall i :: 0 <= i < AlphabetLength ==> |TritAlphabet[i]| == Base
    ensures forall i, j :: 0 <= i < AlphabetLength && 0 <= j < Base ==> 0 <= TritAlphabet[i][j] < Base
  {
  }

  /** Row i of the table, read as a base-3 numeral, is i + 1. */
  lemma TritAlphabetValues()
    ensures |TritAlphabet| == AlphabetLength
    ensures forall i :: 0 <= i < AlphabetLength ==> |TritAlphabet[i]| == Base && TritValue(TritAlphabet[i]) == i + 1
  {
  }

  /** Three trits are the base-3 digits of the number they spell. */
  lemma DigitsOfValue(row: seq<int>)
    requires |row| == 3 && forall j :: 0 <= j < 3 ==> 0 <= row[j] < 3
    ensures 0 <= TritValue(row) < 27 && row == Base3Digits(TritValue(row))
  {
  }

  /** Row i of the table is the base-3 expansion of i + 1, most significant
      trit first; so no row is {0, 0, 0}. */
  lemma TritAlphabetIsBase3()
    ensures |TritAlphabet| == AlphabetLength
    ensures forall i :: 0 <= i < AlphabetLength ==> TritAlphabet[i] == Base3Digits(i + 1)
    ensures [0, 0, 0] !in TritAlphabet
  {
    TritAlphabetEntriesAreTrits();
    TritAlphabetValues();
    forall i | 0 <= i < AlphabetLength ensures TritAlphabet[i] == Base3Digits(i + 1) {
      DigitsOfValue(TritAlphabet[i]);
    }
    forall i | 0 <= i < AlphabetLength ensures TritAlphabet[i] != [0, 0, 0] {
      assert TritValue(TritAlphabet[i]) == i + 1;
    }
  }

  /** The table is injective: every letter has its own 3-trit code. */
  lemma {:induction false} TritAlphabetInjective(a: nat, b: nat)
    requires a < AlphabetLength && b < AlphabetLength
    ensures TritAlphabet[a] == TritAlphabet[b] <==> a == b
  {
    TritAlphabetValues();
    if TritAlphabet[a] == TritAlphabet[b] {
      assert a + 1 == TritValue(TritAlphabet[a]) == TritValue(TritAlphabet[b]) == b + 1;
    }
  }

  /** Row `n` of the table is three trits. */
  lemma TritRow(n: nat)
    requires n < AlphabetLength
    ensures |TritAlphabet[n]| == Base
    ensures forall j :: 0 <= j < Base ==> 0 <= TritAlphabet[n][j] < Base
  {
    TritAlphabetEntriesAreTrits();
  }

  /** A fixed-width 3-trit code has room for the whole alphabet: 26 <= 3^3. */
  lemma CodeCoversAlphabet()
    ensures AlphabetLength <= Base * Base * Base
  {
  }

  /** `GLYPHS` has exactly BASE entries, 0 -> ▲, 1 -> ▼, 2 -> ◆, pairwise distinct. */
  lemma GlyphTableDistinct()
    ensures |GlyphTable| == Base
    ensures GlyphTable[0] == Up && GlyphTable[1] == Down && GlyphTable[2] == Diamond
    ensures forall t, u :: 0 <= t < Base && 0 <= u < Base && GlyphTable[t] == GlyphTable[u] ==> t == u
  {
  }

  /** The trit written by a glyph: the inverse of `GLYPHS`. */
  function TritOf(g: Glyph): (t: nat)
    ensures t < Base && GlyphTable[t] == g
  {
    match g
    case Up => 0
    case Down => 1
    case Diamond => 2
  }

  /** The glyph run that writes a row of trits. */
  function GlyphRun(row: seq<int>): (run: seq<Glyph>)
    requires forall j :: 0 <= j < |row| ==> 0 <= row[j] < Base
    ensures |run| == |row|
    ensures forall j :: 0 <= j < |row| ==> run[j] == GlyphTable[row[j]] && TritOf(run[j]) == row[j]
  {
    seq(|row|, j requires 0 <= j < |row| => GlyphTable[row[j]])
  }

  /** The glyph run of the letter with index `n`: `GLYPHS[TRIT_ALPHABET[n][j]]`, j = 0, 1, 2. */
  function LetterRun(n: nat): (run: seq<Glyph>)
    requires n < AlphabetLength
    ensures |run| == Base
  {
    GlyphRun(TritAlphabet[n])
  }

  /** Glyph j of letter n's run is `GLYPHS[TRIT_ALPHABET[n][j]]`, and reading
      it back gives the trit. */
  lemma LetterRunGlyph(n: nat, j: nat)
    requires n < AlphabetLength && j < Base
    ensures |TritAlphabet[n]| == Base && 0 <= TritAlphabet[n][j] < Base
    ensures LetterRun(n)[j] == GlyphTable[TritAlphabet[n][j]]
    ensures TritOf(LetterRun(n)[j]) == TritAlphabet[n][j]
  {
    TritRow(n);
  }

  /** Distinct letters get distinct glyph runs: reading the run back with
      `TritOf` gives the row, and the rows are distinct. */
  lemma {:induction false} LetterRunInjective(a: nat, b: nat)
    requires a < AlphabetLength && b < AlphabetLength
    ensures LetterRun(a) == LetterRun(b) <==> a == b
  {
    if LetterRun(a) == LetterRun(b) {
      TritRow(a);
      TritRow(b);
      assert TritAlphabet[a] == TritAlphabet[b] by {
        forall j | 0 <= j < Base ensures TritAlphabet[a][j] == TritAlphabet[b][j] {
          LetterRunGlyph(a, j);
          LetterRunGlyph(b, j);
        }
      }
      TritAlphabetInjective(a, b);
    }
  }
}
