/** The ciphertext alphabet shared by both generations of the cipher. */
module Symbols {

  /** The three glyphs standing for the trit values: ▲, ▼ and ◆. Each is a
      multi-byte UTF-8 string in the programs; here it is one abstract symbol. */
  datatype Glyph = Up | Down | Diamond

  /** One element of a ciphertext: a glyph, or a character that was copied
      or substituted literally (such as `/` for a space). */
  datatype Symbol = GlyphSym(glyph: Glyph) | Lit(ch: char)

  /** A glyph run written into a ciphertext. */
  function AsSymbols(run: seq<Glyph>): (r: seq<Symbol>)
    ensures |r| == |run|
    ensures forall k :: 0 <= k < |run| ==> r[k] == GlyphSym(run[k])
  {
    seq(|run|, k requires 0 <= k < |run| => GlyphSym(run[k]))
  }

  /** Writing glyph `g = run[j]` after `c`, which holds what was written before
      the run followed by its first `j` glyphs, extends the written part by one. */
  lemma AppendGlyph(c: seq<Symbol>, written: seq<Symbol>, run: seq<Glyph>, j: nat, g: Glyph)
    requires j < |run| && g == run[j]
    requires c == written + AsSymbols(run[..j])
    ensures c + [GlyphSym(g)] == written + AsSymbols(run[..j + 1])
  {
    assert AsSymbols(run[..j + 1]) == AsSymbols(run[..j]) + [GlyphSym(g)];
  }

  /** Writing every glyph of a run one by one writes the run. */
  lemma AppendedRun(written: seq<Symbol>, run: seq<Glyph>)
    ensures written + AsSymbols(run[..|run|]) == written + AsSymbols(run)
  {
    assert run[..|run|] == run;
  }

  /** Whatever extends `x + r` holds `r` right after `x`. */
  lemma PrefixSlice(x: seq<Symbol>, r: seq<Symbol>, y: seq<Symbol>)
    requires x + r <= y
    ensures |x| + |r| <= |y| && y[|x|..|x| + |r|] == r
  {
    assert y[|x|..|x| + |r|] == (x + r)[|x|..];
  }

  /** Two runs written the same way are the same run. */
  lemma AsSymbolsInjective(run: seq<Glyph>, run': seq<Glyph>)
    requires AsSymbols(run) == AsSymbols(run')
    ensures run == run'
  {
    assert forall k :: 0 <= k < |run| ==> AsSymbols(run)[k].glyph == run[k];
  }

  /** The number of glyphs in a ciphertext. */
  function GlyphCount(s: seq<Symbol>): nat {
    if s == [] then 0 else GlyphCount(s[..|s| - 1]) + (if s[|s| - 1].GlyphSym? then 1 else 0)
  }

  lemma {:induction false} GlyphCountAppend(x: seq<Symbol>, y: seq<Symbol>)
    ensures GlyphCount(x + y) == GlyphCount(x) + GlyphCount(y)
    decreases |y|
  {
    if y == [] {
      assert x + y == x;
    } else {
      var y' := y[..|y| - 1];
      assert (x + y)[..|x + y| - 1] == x + y';
      GlyphCountAppend(x, y');
    }
  }

  /** A written run holds one glyph per element. */
  lemma {:induction false} GlyphCountRun(run: seq<Glyph>)
    ensures GlyphCount(AsSymbols(run)) == |run|
  {
    if run != [] {
      var run' := run[..|run| - 1];
      assert AsSymbols(run)[..|run| - 1] == AsSymbols(run');
      GlyphCountRun(run');
    }
  }

  /** Equal ciphertexts that end in chunks of the same length agree before them. */
  lemma SameSplit(x: seq<Symbol>, u: seq<Symbol>, y: seq<Symbol>, v: seq<Symbol>)
    requires x + u == y + v && |u| == |v|
    ensures x == y && u == v
  {
    assert x == (x + u)[..|x|] && y == (y + v)[..|y|];
    assert u == (x + u)[|x|..] && v == (y + v)[|y|..];
  }

  /** Equal ciphertexts that end in non-empty chunks end in the same symbol. */
  lemma SameLastSymbol(x: seq<Symbol>, u: seq<Symbol>, y: seq<Symbol>, v: seq<Symbol>)
    requires x + u == y + v && u != [] && v != []
    ensures u[|u| - 1] == v[|v| - 1]
  {
    assert (x + u)[|x + u| - 1] == u[|u| - 1];
    assert (y + v)[|y + v| - 1] == v[|v| - 1];
  }
}
