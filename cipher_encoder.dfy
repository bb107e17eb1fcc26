/** The earlier single-file cipher encoder: a plain substitution of one
    glyph triple per letter, with an optional keyword that reorders which
    letter gets which triple. */
module CipherEncoder {
  import opened Ascii
  import opened Symbols
  import DeltaKTables
  import DeltaK

  /** `ALPHABET_LENGTH`. */
  const AlphabetLength: nat := 26

  /** `CIPHER_ALPHABET`: the standard glyph triple of each letter, A first. */
  const CipherAlphabet: seq<seq<Glyph>> := [
    [Up, Up, Down], [Up, Up, Diamond], [Up, Down, Up], [Up, Down, Down],
    [Up, Down, Diamond], [Up, Diamond, Up], [Up, Diamond, Down], [Up, Diamond, Diamond],
    [Down, Up, Up], [Down, Up, Down], [Down, Up, Diamond], [Down, Down, Up],
    [Down, Down, Down], [Down, Down, Diamond], [Down, Diamond, Up], [Down, Diamond, Down],
    [Down, Diamond, Diamond], [Diamond, Up, Up], [Diamond, Up, Down], [Diamond, Up, Diamond],
    [Diamond, Down, Up], [Diamond, Down, Down], [Diamond, Down, Diamond], [Diamond, Diamond, Up],
    [Diamond, Diamond, Down], [Diamond, Diamond, Diamond]]

  /** The upper-case letters in alphabetical order. */
  function StdAlphabet(): (r: string)
    ensures |r| == AlphabetLength
    ensures forall i :: 0 <= i < AlphabetLength ==> r[i] == LetterAt(i)
  {
    seq(AlphabetLength, i requires 0 <= i < AlphabetLength => LetterAt(i))
  }

  /** No element occurs twice. */
  predicate Distinct<T(==)>(s: seq<T>) {
    forall i, j :: 0 <= i < j < |s| ==> s[i] != s[j]
  }

  /** A substitution table: one glyph triple per letter. */
  predicate IsTable(alphabet: seq<seq<Glyph>>) {
    |alphabet| == AlphabetLength && forall i :: 0 <= i < |alphabet| ==> |alphabet[i]| == 3
  }

  // ---------------------------------------------------------------------
  // The standard alphabets
  // ---------------------------------------------------------------------

  /** Entry i of `CIPHER_ALPHABET` is the Delta-K code of letter i (the
      digits of i + 1 in base 3, written with ▲ ▼ ◆), so the two programs
      share their unkeyed code. */
  lemma CipherAlphabetIsTritCode(i: nat)
    requires i < AlphabetLength
    ensures |CipherAlphabet| == AlphabetLength
    ensures CipherAlphabet[i] == DeltaKTables.LetterRun(i)
  {
    DeltaKTables.LetterRunGlyph(i, 0);
    DeltaKTables.LetterRunGlyph(i, 1);
    DeltaKTables.LetterRunGlyph(i, 2);
    DeltaKTables.TritAlphabetIsBase3();
  }

  /** `CIPHER_ALPHABET` is a substitution table whose entries are pairwise
      distinct, so every letter gets its own triple. */
  lemma {:induction false} CipherAlphabetIsTable()
    ensures IsTable(CipherAlphabet) && Distinct(CipherAlphabet)
  {
    forall i | 0 <= i < AlphabetLength
      ensures |CipherAlphabet[i]| == 3
    {
      CipherAlphabetIsTritCode(i);
    }
    forall i, j | 0 <= i < j < AlphabetLength
      ensures CipherAlphabet[i] != CipherAlphabet[j]
    {
      CipherAlphabetIsTritCode(i);
      CipherAlphabetIsTritCode(j);
      DeltaKTables.LetterRunInjective(i, j);
    }
  }

  /** The literal `alphabetWithKey` starts from is the alphabet in order. */
  lemma PlainAlphabetLiteral()
    ensures "ABCDEFGHIJKLMNOPQRSTUVWXYZ" == StdAlphabet()
  {
  }

  // ---------------------------------------------------------------------
  // Substitution
  // ---------------------------------------------------------------------

  /** What `encrypt` writes for one character: a letter becomes its entry of
      the table, every other character (a space included) is copied. */
  function SubstChar(c: char, alphabet: seq<seq<Glyph>>): seq<Symbol>
    requires |alphabet| == AlphabetLength
  {
    if IsLetter(c) then AsSymbols(alphabet[AbcPosition(c)]) else [Lit(c)]
  }

  /** The ciphertext of a plaintext under a table: the characters' outputs in order. */
  function SubstSpec(p: string, alphabet: seq<seq<Glyph>>): seq<Symbol>
    requires |alphabet| == AlphabetLength
  {
    if p == [] then [] else SubstSpec(p[..|p| - 1], alphabet) + SubstChar(p[|p| - 1], alphabet)
  }

  /** `encrypt(plaintext, alphabet)`: appends `alphabet[abcPosition(c)]` for
      each letter and the character itself otherwise. Called with
      `CipherAlphabet` when no key is given. */
  method Encrypt(plaintext: string, alphabet: seq<seq<Glyph>>) returns (ciphertext: seq<Symbol>)
    requires |alphabet| == AlphabetLength
    ensures ciphertext == SubstSpec(plaintext, alphabet)
  {
    ciphertext := [];
    for i := 0 to |plaintext|
      invariant ciphertext == SubstSpec(plaintext[..i], alphabet)
    {
      assert plaintext[..i + 1][..i] == plaintext[..i];
      if IsLetter(plaintext[i]) {
        ciphertext := ciphertext + AsSymbols(alphabet[AbcPosition(plaintext[i])]);
      } else {
        ciphertext := ciphertext + [Lit(plaintext[i])];
      }
    }
    assert plaintext[..|plaintext|] == plaintext;
  }

  /** Substitution works character by character. */
  lemma {:induction false} SubstAppend(p: string, q: string, alphabet: seq<seq<Glyph>>)
    requires |alphabet| == AlphabetLength
    ensures SubstSpec(p + q, alphabet) == SubstSpec(p, alphabet) + SubstSpec(q, alphabet)
    decreases |q|
  {
    if q != [] {
      var q' := q[..|q| - 1];
      assert (p + q)[..|p + q| - 1] == p + q';
      SubstAppend(p, q', alphabet);
    } else {
      assert p + q == p;
    }
  }

  /** Under a table of triples the ciphertext has three symbols per letter
      and one per other character; the empty plaintext gives nothing. */
  lemma {:induction false} SubstLength(p: string, alphabet: seq<seq<Glyph>>)
    requires IsTable(alphabet)
    ensures |SubstSpec(p, alphabet)| == 3 * LetterCount(p) + (|p| - LetterCount(p))
    ensures p == [] ==> SubstSpec(p, alphabet) == []
  {
    if p != [] {
      SubstLength(p[..|p| - 1], alphabet);
    }
  }

  /** The plaintext with every space replaced by `/`. */
  function SpacesToSlashes(p: string): (r: string)
    ensures |r| == |p|
    ensures forall i :: 0 <= i < |p| ==> r[i] == if p[i] == ' ' then '/' else p[i]
  {
    seq(|p|, i requires 0 <= i < |p| => if p[i] == ' ' then '/' else p[i])
  }

  /** The Delta-K engine's unkeyed cipher is this program's default cipher
      except for spaces: Delta-K writes `/` where this program copies the
      space. On plaintexts without spaces the two agree. */
  lemma {:induction false} DeltaKIsDefaultCipher(p: string)
    ensures DeltaK.EncryptSpec(p) == SubstSpec(SpacesToSlashes(p), CipherAlphabet)
    ensures (forall i :: 0 <= i < |p| ==> p[i] != ' ') ==> DeltaK.EncryptSpec(p) == SubstSpec(p, CipherAlphabet)
  {
    if p != [] {
      var p', c := p[..|p| - 1], p[|p| - 1];
      assert SpacesToSlashes(p)[..|p| - 1] == SpacesToSlashes(p');
      DeltaKIsDefaultCipher(p');
      if IsLetter(c) {
        CipherAlphabetIsTritCode(AbcPosition(c));
      }
    }
    assert (forall i :: 0 <= i < |p| ==> p[i] != ' ') ==> SpacesToSlashes(p) == p;
  }

  /** A character `encrypt` can be read back from: an upper-case letter or
      an ASCII non-letter (lower-case letters share the triple of their
      capital, and a glyph character would be copied as the bytes of a
      triple). */
  predicate SubstReadableChar(c: char) {
    IsUpper(c) || (!IsLetter(c) && c as int < 128)
  }

  /** Under a table of distinct triples, a readable character can be read
      back from what it encrypts to. */
  lemma {:induction false} SubstCharInjective(c: char, d: char, alphabet: seq<seq<Glyph>>)
    requires IsTable(alphabet) && Distinct(alphabet)
    requires SubstReadableChar(c) && SubstReadableChar(d)
    requires SubstChar(c, alphabet) == SubstChar(d, alphabet)
    ensures c == d
  {
    assert IsLetter(c) <==> IsLetter(d) by {
      assert SubstChar(c, alphabet)[0].GlyphSym? <==> IsLetter(c);
      assert SubstChar(d, alphabet)[0].GlyphSym? <==> IsLetter(d);
    }
    if IsLetter(c) {
      var a, b := AbcPosition(c), AbcPosition(d);
      assert alphabet[a] == alphabet[b] by {
        assert forall k :: 0 <= k < 3 ==> alphabet[a][k] == SubstChar(c, alphabet)[k].glyph;
        assert forall k :: 0 <= k < 3 ==> alphabet[b][k] == SubstChar(d, alphabet)[k].glyph;
      }
      assert a == b;
    } else {
      assert SubstChar(c, alphabet)[0] == Lit(c);
    }
  }

  /** Two ciphertexts that agree and end in the output of readable characters
      end in the output of the same character. */
  lemma {:induction false} SubstSameLastChar(x: seq<Symbol>, c: char, y: seq<Symbol>, d: char, alphabet: seq<seq<Glyph>>)
    requires IsTable(alphabet) && Distinct(alphabet)
    requires SubstReadableChar(c) && SubstReadableChar(d)
    requires x + SubstChar(c, alphabet) == y + SubstChar(d, alphabet)
    ensures c == d && x == y
  {
    var e := x + SubstChar(c, alphabet);
    assert e[|e| - 1].GlyphSym? <==> IsLetter(c);
    assert e[|e| - 1].GlyphSym? <==> IsLetter(d);
    assert SubstChar(c, alphabet) == e[|x|..];
    assert SubstChar(d, alphabet) == e[|y|..];
    SubstCharInjective(c, d, alphabet);
    assert x == e[..|x|] && y == e[..|y|];
  }

  /** `encrypt` under any table of distinct triples (the standard one, or one
      built from a valid key) is injective on readable plaintexts. */
  lemma {:induction false} SubstInjective(p: string, q: string, alphabet: seq<seq<Glyph>>)
    requires IsTable(alphabet) && Distinct(alphabet)
    requires forall i :: 0 <= i < |p| ==> SubstReadableChar(p[i])
    requires forall i :: 0 <= i < |q| ==> SubstReadableChar(q[i])
    requires SubstSpec(p, alphabet) == SubstSpec(q, alphabet)
    ensures p == q
    decreases |p|
  {
    if p != [] && q != [] {
      var p', c := p[..|p| - 1], p[|p| - 1];
      var q', d := q[..|q| - 1], q[|q| - 1];
      assert c == d && SubstSpec(p', alphabet) == SubstSpec(q', alphabet) by {
        assert SubstReadableChar(c) && SubstReadableChar(d);
        SubstSameLastChar(SubstSpec(p', alphabet), c, SubstSpec(q', alphabet), d, alphabet);
      }
      assert p' == q' by {
        assert forall i :: 0 <= i < |p'| ==> SubstReadableChar(p'[i]);
        assert forall i :: 0 <= i < |q'| ==> SubstReadableChar(q'[i]);
        SubstInjective(p', q', alphabet);
      }
      assert p == p' + [c] && q == q' + [d];
    } else {
      SubstLength(p, alphabet);
      SubstLength(q, alphabet);
    }
  }

  // ---------------------------------------------------------------------
  // Key check
  // ---------------------------------------------------------------------

  /** What this program's `keyValidation` accepts: letters only, no letter
      twice once case is ignored. Unlike the Delta-K check, the empty key
      passes. */
  predicate UniqueLetters(key: string) {
    (forall i :: 0 <= i < |key| ==> IsLetter(key[i])) &&
    (forall i, j :: 0 <= i < j < |key| ==> ToUpper(key[i]) != ToUpper(key[j]))
  }

  /** The set of elements of a sequence is as large as the sequence exactly
      when no element repeats; it is never larger. */
  lemma {:induction false} SetSizeDistinct<T>(s: seq<T>)
    ensures |set x | x in s| <= |s|
    ensures |set x | x in s| == |s| <==> Distinct(s)
  {
    if s != [] {
      var s', x := s[..|s| - 1], s[|s| - 1];
      SetSizeDistinct(s');
      assert s == s' + [x];
      assert (set y | y in s) == (set y | y in s') + {x};
      if x in s' {
        assert (set y | y in s) == (set y | y in s');
        var k :| 0 <= k < |s'| && s'[k] == x;
        assert s[k] == s[|s| - 1];
      } else {
        assert Distinct(s) <==> Distinct(s') by {
          if Distinct(s') {
            forall i, j | 0 <= i < j < |s|
              ensures s[i] != s[j]
            {
              if j == |s| - 1 {
                assert s'[i] in s';
              } else {
                assert s[i] == s'[i] && s[j] == s'[j];
              }
            }
          }
        }
      }
    }
  }

  /** `keyValidation(key)`: false as soon as a non-letter is seen; otherwise
      true exactly when the set of upper-cased letters is as large as the
      upper-cased key. */
  method KeyValidation(key: string) returns (ok: bool)
    ensures ok <==> UniqueLetters(key)
    ensures key == [] ==> ok
  {
    var upperKey := "";
    for i := 0 to |key|
      invariant upperKey == Upper(key[..i])
      invariant forall m :: 0 <= m < i ==> IsLetter(key[m])
    {
      if !IsLetter(key[i]) {
        return false;
      }
      assert key[..i + 1] == key[..i] + [key[i]];
      UpperAppend(key[..i], key[i]);
      upperKey := upperKey + [ToUpper(key[i])];
    }
    assert key[..|key|] == key;
    var chars := Chars(upperKey);
    UpperKeySize(key);
    return |chars| == |upperKey|;
  }

  /** For a key of letters, the set of its upper-cased letters is as large
      as the upper-cased key exactly when no letter repeats up to case. */
  lemma UpperKeySize(key: string)
    requires forall i :: 0 <= i < |key| ==> IsLetter(key[i])
    ensures |Chars(Upper(key))| == |Upper(key)| <==> UniqueLetters(key)
  {
    SetSizeDistinct(Upper(key));
  }

  // ---------------------------------------------------------------------
  // Keyword alphabet
  // ---------------------------------------------------------------------

  /** `s` with its first occurrence of `c` removed (`s` itself when `c` does
      not occur). */
  function EraseFirst(s: string, c: char): (r: string)
  {
    if s == [] then []
    else if s[0] == c then s[1..]
    else [s[0]] + EraseFirst(s[1..], c)
  }

  /** `s` after erasing the first occurrence of each character of `cs` in turn. */
  function EraseEach(s: string, cs: string): string {
    if cs == [] then s else EraseFirst(EraseEach(s, cs[..|cs| - 1]), cs[|cs| - 1])
  }

  /** What `alphabetWithKey(key)` returns: the upper-cased key, followed by
      what is left of the alphabet after erasing each of its letters. */
  function KeyedAlphabet(key: string): string {
    Upper(key) + EraseEach(StdAlphabet(), Upper(key))
  }

  /** Erasing the characters of a prefix one at a time. */
  lemma EraseEachStep(s: string, cs: string, i: nat)
    requires i < |cs|
    ensures EraseEach(s, cs[..i + 1]) == EraseFirst(EraseEach(s, cs[..i]), cs[i])
  {
    assert cs[..i + 1][..i] == cs[..i];
  }

  /** Where the first occurrence of `c` is at index `j`, erasing it splices
      out index `j`. */
  lemma {:induction false} EraseFirstAt(s: string, c: char, j: nat)
    requires j < |s| && s[j] == c
    requires forall k :: 0 <= k < j ==> s[k] != c
    ensures EraseFirst(s, c) == s[..j] + s[j + 1..]
  {
    if j > 0 {
      EraseFirstAt(s[1..], c, j - 1);
      assert s[1..][..j - 1] + s[1..][j..] == s[1..j] + s[j + 1..];
      assert s[..j] == [s[0]] + s[1..j];
    }
  }

  /** Erasing a character that does not occur changes nothing. */
  lemma {:induction false} EraseFirstAbsent(s: string, c: char)
    ensures c !in s ==> EraseFirst(s, c) == s
  {
    if s != [] && c !in s {
      assert c !in s[1..];
      EraseFirstAbsent(s[1..], c);
      assert s == [s[0]] + s[1..];
    }
  }

  /** `alphabetWithKey(key)`: upper-cases the key, erases from the plain
      alphabet the first occurrence of each key letter in turn (the inner loop
      stops at the first match), and appends what is left to the key. */
  method AlphabetWithKey(key: string) returns (keyedAlphabet: string)
    ensures keyedAlphabet == KeyedAlphabet(key)
  {
    keyedAlphabet := "";
    for i := 0 to |key|
      invariant keyedAlphabet == Upper(key[..i])
    {
      assert key[..i + 1] == key[..i] + [key[i]];
      UpperAppend(key[..i], key[i]);
      keyedAlphabet := keyedAlphabet + [ToUpper(key[i])];
    }
    assert key[..|key|] == key;

    var alphabet := StdAlphabet();  // "ABCDEFGHIJKLMNOPQRSTUVWXYZ", see PlainAlphabetLiteral
    for i := 0 to |keyedAlphabet|
      invariant alphabet == EraseEach(StdAlphabet(), keyedAlphabet[..i])
    {
      ghost var before := alphabet;
      var j := 0;
      while j < |alphabet|
        invariant 0 <= j <= |alphabet| && alphabet == before
        invariant forall k :: 0 <= k < j ==> alphabet[k] != keyedAlphabet[i]
      {
        if alphabet[j] == keyedAlphabet[i] {
          EraseFirstAt(before, keyedAlphabet[i], j);
          alphabet := alphabet[..j] + alphabet[j + 1..];
          break;
        }
        j := j + 1;
      }
      EraseFirstAbsent(before, keyedAlphabet[i]);
      EraseEachStep(StdAlphabet(), keyedAlphabet, i);
    }
    assert keyedAlphabet[..|keyedAlphabet|] == keyedAlphabet;

    keyedAlphabet := keyedAlphabet + alphabet;
  }

  /** The characters of `s`, in order, that are not in `a`. */
  function Without(s: string, a: set<char>): (r: string)
    ensures forall c :: c in r <==> c in s && c !in a
  {
    if s == [] then []
    else (if s[0] in a then [] else [s[0]]) + Without(s[1..], a)
  }

  /** The set of characters of a string. */
  function Chars(s: string): (a: set<char>)
    ensures forall c :: c in a <==> c in s
  {
    set c | c in s
  }

  /** `StdAlphabet()` has no repeated letter. */
  lemma StdAlphabetDistinct()
    ensures Distinct(StdAlphabet())
    ensures forall c :: c in StdAlphabet() <==> IsUpper(c)
  {
    forall c | IsUpper(c)
      ensures c in StdAlphabet()
    {
      assert StdAlphabet()[AbcPosition(c)] == c;
    }
  }

  lemma {:induction false} WithoutDistinct(s: string, a: set<char>)
    requires Distinct(s)
    ensures Distinct(Without(s, a))
  {
    if s != [] {
      assert Distinct(s[1..]);
      WithoutDistinct(s[1..], a);
      assert s[0] !in s[1..];
    }
  }

  lemma {:induction false} WithoutNone(s: string, a: set<char>)
    requires forall i :: 0 <= i < |s| ==> s[i] !in a
    ensures Without(s, a) == s
  {
    if s != [] {
      WithoutNone(s[1..], a);
      assert s == [s[0]] + s[1..];
    }
  }

  lemma {:induction false} WithoutTwice(s: string, a: set<char>, b: set<char>)
    ensures Without(Without(s, a), b) == Without(s, a + b)
  {
    if s != [] {
      WithoutTwice(s[1..], a, b);
      var w := Without(s, a);
      if s[0] in a {
        assert w == Without(s[1..], a);
      } else {
        assert w == [s[0]] + Without(s[1..], a);
        assert w != [] && w[0] == s[0] && w[1..] == Without(s[1..], a);
      }
    }
  }

  /** In a string without repeats, erasing the first occurrence of `x`
      removes every occurrence of it. */
  lemma {:induction false} EraseFirstIsWithout(t: string, x: char)
    requires Distinct(t)
    ensures EraseFirst(t, x) == Without(t, {x})
  {
    if t != [] {
      assert Distinct(t[1..]);
      if t[0] == x {
        assert t[0] !in t[1..];
        WithoutNone(t[1..], {x});
      } else {
        EraseFirstIsWithout(t[1..], x);
      }
    }
  }

  /** In a string without repeats, erasing each character of `cs` in turn
      leaves the characters not in `cs`, in their original order. */
  lemma {:induction false} EraseEachIsWithout(s: string, cs: string)
    requires Distinct(s)
    ensures EraseEach(s, cs) == Without(s, Chars(cs))
    decreases |cs|
  {
    if cs == [] {
      assert Chars(cs) == {};
      WithoutNone(s, {});
    } else {
      var cs', x := cs[..|cs| - 1], cs[|cs| - 1];
      EraseEachIsWithout(s, cs');
      WithoutDistinct(s, Chars(cs'));
      EraseFirstIsWithout(Without(s, Chars(cs')), x);
      WithoutTwice(s, Chars(cs'), {x});
      assert cs == cs' + [x];
      assert Chars(cs) == Chars(cs') + {x};
    }
  }

  /** `alphabetWithKey(key)`, for any key: the upper-cased key, then the
      letters of the alphabet that do not occur in it, in alphabetical order. */
  lemma KeyedAlphabetShape(key: string)
    ensures KeyedAlphabet(key) == Upper(key) + Without(StdAlphabet(), Chars(Upper(key)))
  {
    StdAlphabetDistinct();
    EraseEachIsWithout(StdAlphabet(), Upper(key));
  }

  /** Dropping the characters in `a` from a string without repeats removes
      one character for each of its characters that is in `a`. */
  lemma {:induction false} WithoutLength(s: string, a: set<char>)
    requires Distinct(s)
    ensures |Without(s, a)| == |s| - |Chars(s) * a|
  {
    if s != [] {
      var s' := s[1..];
      assert Distinct(s');
      WithoutLength(s', a);
      assert s[0] !in Chars(s');
      assert Chars(s) == {s[0]} + Chars(s');
      if s[0] in a {
        assert Chars(s) * a == {s[0]} + Chars(s') * a;
      } else {
        assert Chars(s) * a == Chars(s') * a;
      }
    }
  }

  /** For a key of letters, `alphabetWithKey(key)` has 26 characters plus
      one for every repeated letter of the key (case ignored): a repeat is
      written again in the key part but erases nothing more. So it has
      exactly 26 characters when no letter repeats. */
  lemma KeyedAlphabetLength(key: string)
    requires forall i :: 0 <= i < |key| ==> IsLetter(key[i])
    ensures |KeyedAlphabet(key)| == |key| + AlphabetLength - |Chars(Upper(key))|
    ensures |KeyedAlphabet(key)| == AlphabetLength <==> UniqueLetters(key)
  {
    var u := Upper(key);
    assert |Without(StdAlphabet(), Chars(u))| == AlphabetLength - |Chars(u)| by {
      StdAlphabetDistinct();
      WithoutLength(StdAlphabet(), Chars(u));
      forall c | c in Chars(u)
        ensures c in StdAlphabet()
      {
        var i := FindLetter(u, c);
        assert IsUpper(c);
      }
      assert Chars(StdAlphabet()) * Chars(u) == Chars(u);
    }
    assert |Chars(u)| == |u| <==> UniqueLetters(key) by {
      SetSizeDistinct(u);
      assert Distinct(u) <==> UniqueLetters(key);
    }
    KeyedAlphabetShape(key);
  }

  /** A reordering of the plain alphabet: every letter exactly once. */
  predicate IsAlphabetOrder(ka: string) {
    multiset(ka) == multiset(StdAlphabet())
  }

  lemma {:induction false} DistinctMultiplicity<T>(s: seq<T>, x: T)
    requires Distinct(s)
    ensures multiset(s)[x] == if x in s then 1 else 0
  {
    if s != [] {
      var s', y := s[..|s| - 1], s[|s| - 1];
      assert s == s' + [y];
      assert Distinct(s');
      DistinctMultiplicity(s', x);
      assert forall k :: 0 <= k < |s'| ==> s'[k] == s[k] != s[|s| - 1];
    }
  }

  /** Two sequences without repeats that hold the same elements are
      reorderings of each other. */
  lemma SameElementsDistinct<T>(s: seq<T>, t: seq<T>)
    requires Distinct(s) && Distinct(t)
    requires forall x :: x in s <==> x in t
    ensures multiset(s) == multiset(t)
  {
    forall x
      ensures multiset(s)[x] == multiset(t)[x]
    {
      DistinctMultiplicity(s, x);
      DistinctMultiplicity(t, x);
    }
  }

  lemma {:induction false} WithoutMultiplicity(s: string, a: set<char>, x: char)
    ensures multiset(Without(s, a))[x] == if x in a then 0 else multiset(s)[x]
  {
    if s != [] {
      WithoutMultiplicity(s[1..], a, x);
      assert s == [s[0]] + s[1..];
    }
  }

  /** Distinct characters `u` of a distinct string `t`, followed by the rest
      of `t` in order, reorder `t`. */
  lemma {:induction false} PrefixThenRest(u: string, t: string)
    requires Distinct(u) && Distinct(t)
    requires forall k :: 0 <= k < |u| ==> u[k] in t
    ensures multiset(u + Without(t, Chars(u))) == multiset(t)
  {
    var w := Without(t, Chars(u));
    forall x
      ensures multiset(u + w)[x] == multiset(t)[x]
    {
      DistinctMultiplicity(u, x);
      WithoutMultiplicity(t, Chars(u), x);
      DistinctMultiplicity(t, x);
    }
    assert multiset(u + w) == multiset(t);
  }

  /** The upper-cased letters of a key that passes `keyValidation` are
      distinct upper-case letters. */
  lemma UniqueKeyLetters(key: string)
    requires UniqueLetters(key)
    ensures Distinct(Upper(key))
    ensures forall k :: 0 <= k < |key| ==> IsUpper(Upper(key)[k])
  {
    assert forall k :: 0 <= k < |key| ==> IsLetter(key[k]);
  }

  /** For a key that passes `keyValidation`, `alphabetWithKey(key)` is a
      reordering of the alphabet that starts with the upper-cased key; in
      particular it has 26 letters, and such a key has at most 26. */
  lemma {:induction false} KeyedAlphabetIsPermutation(key: string)
    requires UniqueLetters(key)
    ensures IsAlphabetOrder(KeyedAlphabet(key))
    ensures |KeyedAlphabet(key)| == AlphabetLength && |key| <= AlphabetLength
    ensures KeyedAlphabet(key)[..|key|] == Upper(key)
  {
    var u, ka := Upper(key), KeyedAlphabet(key);
    assert ka == u + Without(StdAlphabet(), Chars(u)) by {
      KeyedAlphabetShape(key);
    }
    assert multiset(ka) == multiset(StdAlphabet()) by {
      StdAlphabetDistinct();
      UniqueKeyLetters(key);
      PrefixThenRest(u, StdAlphabet());
    }
    assert |multiset(ka)| == |ka| && |multiset(StdAlphabet())| == AlphabetLength;
  }

  /** A reordering of a distinct string is distinct and has the same length
      and the same characters. */
  lemma {:induction false} ReorderFacts(ka: string, t: string)
    requires multiset(ka) == multiset(t) && Distinct(t)
    ensures |ka| == |t| && Distinct(ka)
    ensures forall c :: c in ka <==> c in t
  {
    assert |multiset(ka)| == |ka| && |multiset(t)| == |t|;
    assert forall c :: c in ka <==> c in multiset(ka);
    assert forall c :: c in t <==> c in multiset(t);
    forall i, j | 0 <= i < j < |ka|
      ensures ka[i] != ka[j]
    {
      var x := ka[i];
      assert ka == ka[..j] + [ka[j]] + ka[j + 1..];
      assert x in ka[..j];
      assert multiset(ka)[x] >= 1 + multiset([ka[j]])[x];
      DistinctMultiplicity(t, x);
    }
  }

  /** A reordering of the alphabet has 26 distinct upper-case letters and
      contains every upper-case letter. */
  lemma {:induction false} AlphabetOrderFacts(ka: string)
    requires IsAlphabetOrder(ka)
    ensures |ka| == AlphabetLength && Distinct(ka)
    ensures forall i :: 0 <= i < |ka| ==> IsUpper(ka[i])
    ensures forall c :: IsUpper(c) ==> c in ka
  {
    StdAlphabetDistinct();
    ReorderFacts(ka, StdAlphabet());
  }

  // ---------------------------------------------------------------------
  // Keyed table
  // ---------------------------------------------------------------------

  /** The table after the first `n` steps of `keyedCipherAlphabet`, starting
      from `init`: entry `ka[i] - 'A'` is set to `CIPHER_ALPHABET[i]` for
      i = 0, 1, ..., n - 1 in turn. */
  function Scatter(ka: string, n: nat, init: seq<seq<Glyph>>): (out: seq<seq<Glyph>>)
    requires n <= |ka| && n <= AlphabetLength && |init| == AlphabetLength
    requires forall i :: 0 <= i < n ==> IsUpper(ka[i])
    ensures |out| == AlphabetLength
  {
    if n == 0 then init
    else
      CipherAlphabetIsTable();
      assert IsUpper(ka[n - 1]);
      assert 0 <= ka[n - 1] as int - 'A' as int < AlphabetLength;
      Scatter(ka, n - 1, init)[ka[n - 1] as int - 'A' as int := CipherAlphabet[n - 1]]
  }

  /** `keyedCipherAlphabet(keyedAlphabet, output)`: for i = 0 .. 25, stores
      `CIPHER_ALPHABET[i]` at index `keyedAlphabet[i] - 'A'` of `output`. The
      first 26 characters must be upper-case letters, or the index leaves
      the array. */
  method KeyedCipherAlphabet(keyedAlphabet: string, output: array<seq<Glyph>>)
    requires output.Length == AlphabetLength && |keyedAlphabet| >= AlphabetLength
    requires forall i :: 0 <= i < AlphabetLength ==> IsUpper(keyedAlphabet[i])
    modifies output
    ensures output[..] == Scatter(keyedAlphabet, AlphabetLength, old(output[..]))
  {
    for i := 0 to AlphabetLength
      invariant output[..] == Scatter(keyedAlphabet, i, old(output[..]))
    {
      var index := keyedAlphabet[i] as int - 'A' as int;
      output[index] := CipherAlphabet[i];
    }
  }

  /** An index at which `c` occurs in `s`. */
  lemma FindLetter(s: string, c: char) returns (i: nat)
    requires c in s
    ensures i < |s| && s[i] == c
  {
    i :| 0 <= i < |s| && s[i] == c;
  }

  /** When the letters written so far are distinct, letter `ka[i]`'s entry
      holds the triple written for it at step i. */
  lemma {:induction false} ScatterAt(ka: string, n: nat, init: seq<seq<Glyph>>, i: nat)
    requires n <= |ka| && n <= AlphabetLength && |init| == AlphabetLength
    requires forall k :: 0 <= k < n ==> IsUpper(ka[k])
    requires Distinct(ka) && i < n
    ensures Scatter(ka, n, init)[ka[i] as int - 'A' as int] == CipherAlphabet[i]
  {
    CipherAlphabetIsTable();
    if i < n - 1 {
      ScatterAt(ka, n - 1, init, i);
      assert ka[i] != ka[n - 1];
      assert IsUpper(ka[i]) && IsUpper(ka[n - 1]);
    }
  }

  /** For a reordering `ka` of the alphabet, `keyedCipherAlphabet` gives
      letter `ka[i]` the standard triple of position i, overwrites every entry
      (what the array held before does not matter), and yields a table of
      distinct triples. */
  lemma {:induction false} KeyedTable(ka: string, init: seq<seq<Glyph>>, init': seq<seq<Glyph>>)
    requires IsAlphabetOrder(ka) && |init| == |init'| == AlphabetLength
    ensures |ka| == AlphabetLength && forall i :: 0 <= i < |ka| ==> IsUpper(ka[i])
    ensures forall i :: 0 <= i < AlphabetLength ==>
      Scatter(ka, AlphabetLength, init)[AbcPosition(ka[i])] == CipherAlphabet[i]
    ensures Scatter(ka, AlphabetLength, init) == Scatter(ka, AlphabetLength, init')
    ensures IsTable(Scatter(ka, AlphabetLength, init)) && Distinct(Scatter(ka, AlphabetLength, init))
  {
    AlphabetOrderFacts(ka);
    CipherAlphabetIsTable();
    var out, out' := Scatter(ka, AlphabetLength, init), Scatter(ka, AlphabetLength, init');
    forall i | 0 <= i < AlphabetLength
      ensures out[AbcPosition(ka[i])] == out'[AbcPosition(ka[i])] == CipherAlphabet[i]
    {
      ScatterAt(ka, AlphabetLength, init, i);
      ScatterAt(ka, AlphabetLength, init', i);
    }
    forall p | 0 <= p < AlphabetLength
      ensures out[p] == out'[p] && |out[p]| == 3
    {
      var i := FindLetter(ka, LetterAt(p));
    }
    forall p, q | 0 <= p < q < AlphabetLength
      ensures out[p] != out[q]
    {
      var i := FindLetter(ka, LetterAt(p));
      var j := FindLetter(ka, LetterAt(q));
    }
  }

  /** For a reordering `ka` of the alphabet, `keyedCipherAlphabet` writes
      every slot exactly once: the table is a reordering of `CIPHER_ALPHABET`. */
  lemma KeyedTableIsPermutation(ka: string, init: seq<seq<Glyph>>)
    requires IsAlphabetOrder(ka) && |init| == AlphabetLength
    ensures |ka| == AlphabetLength && forall i :: 0 <= i < |ka| ==> IsUpper(ka[i])
    ensures multiset(Scatter(ka, AlphabetLength, init)) == multiset(CipherAlphabet)
  {
    KeyedTable(ka, init, init);
    AlphabetOrderFacts(ka);
    CipherAlphabetIsTable();
    var out := Scatter(ka, AlphabetLength, init);
    forall x
      ensures x in out <==> x in CipherAlphabet
    {
      if x in out {
        var p :| 0 <= p < |out| && out[p] == x;
        var i := FindLetter(ka, LetterAt(p));
        assert x == CipherAlphabet[i];
      }
      if x in CipherAlphabet {
        var i :| 0 <= i < |CipherAlphabet| && CipherAlphabet[i] == x;
        assert x == out[AbcPosition(ka[i])];
      }
    }
    SameElementsDistinct(out, CipherAlphabet);
  }

  /** With the alphabet in its plain order, `keyedCipherAlphabet` rebuilds
      `CIPHER_ALPHABET`. */
  lemma {:induction false} PlainOrderTable(init: seq<seq<Glyph>>)
    requires |init| == AlphabetLength
    ensures Scatter(StdAlphabet(), AlphabetLength, init) == CipherAlphabet
  {
    KeyedTable(StdAlphabet(), init, init);
    CipherAlphabetIsTable();
    forall i | 0 <= i < AlphabetLength
      ensures Scatter(StdAlphabet(), AlphabetLength, init)[i] == CipherAlphabet[i]
    {
      assert AbcPosition(StdAlphabet()[i]) == i;
    }
  }

  // ---------------------------------------------------------------------
  // The keyword cipher as the program assembles it
  // ---------------------------------------------------------------------

  /** The table the program builds for a key that passes `keyValidation`:
      `keyedCipherAlphabet(alphabetWithKey(key), table)`, starting from
      whatever `table` held. */
  function KeywordTable(key: string, init: seq<seq<Glyph>>): (table: seq<seq<Glyph>>)
    requires UniqueLetters(key) && |init| == AlphabetLength
    ensures |table| == AlphabetLength
  {
    KeyedAlphabetIsPermutation(key);
    AlphabetOrderFacts(KeyedAlphabet(key));
    Scatter(KeyedAlphabet(key), AlphabetLength, init)
  }

  /** The keyword cipher: under the table built for a valid key, the i-th
      letter of the keyed alphabet (so the i-th key letter, in either case)
      encrypts to the i-th standard triple; the table is a set of distinct
      triples. */
  lemma {:induction false} KeywordTableMaps(key: string, init: seq<seq<Glyph>>)
    requires UniqueLetters(key) && |init| == AlphabetLength
    ensures |KeyedAlphabet(key)| == AlphabetLength
    ensures forall i :: 0 <= i < AlphabetLength ==>
      SubstChar(KeyedAlphabet(key)[i], KeywordTable(key, init)) == AsSymbols(CipherAlphabet[i])
    ensures forall i :: 0 <= i < |key| ==>
      SubstChar(key[i], KeywordTable(key, init)) == AsSymbols(CipherAlphabet[i])
    ensures IsTable(KeywordTable(key, init)) && Distinct(KeywordTable(key, init))
  {
    var ka := KeyedAlphabet(key);
    KeyedAlphabetIsPermutation(key);
    KeyedTable(ka, init, init);
    forall i | 0 <= i < |key|
      ensures SubstChar(key[i], KeywordTable(key, init)) == AsSymbols(CipherAlphabet[i])
    {
      assert ka[i] == ToUpper(key[i]);
      assert IsLetter(key[i]);
      AbcPositionCaseInsensitive(key[i], ka[i]);
    }
  }

  /** Text encrypted under the table built for a valid key can be read back:
      two readable plaintexts with the same ciphertext are equal. */
  lemma {:induction false} KeywordDecodable(key: string, init: seq<seq<Glyph>>, p: string, q: string)
    requires UniqueLetters(key) && |init| == AlphabetLength
    requires forall i :: 0 <= i < |p| ==> SubstReadableChar(p[i])
    requires forall i :: 0 <= i < |q| ==> SubstReadableChar(q[i])
    requires SubstSpec(p, KeywordTable(key, init)) == SubstSpec(q, KeywordTable(key, init))
    ensures p == q
  {
    KeywordTableMaps(key, init);
    SubstInjective(p, q, KeywordTable(key, init));
  }

  /** With the empty key, which this program's `keyValidation` accepts, the
      keyword alphabet is the plain alphabet, the table built from it is
      `CIPHER_ALPHABET`, and so the keyword cipher is the default cipher,
      and the Delta-K unkeyed cipher on text without spaces. */
  lemma EmptyKeyIsPlain(init: seq<seq<Glyph>>, p: string)
    requires |init| == AlphabetLength
    ensures KeyedAlphabet([]) == StdAlphabet()
    ensures KeywordTable([], init) == CipherAlphabet
    ensures SubstSpec(p, KeywordTable([], init)) == SubstSpec(p, CipherAlphabet)
    ensures (forall i :: 0 <= i < |p| ==> p[i] != ' ') ==>
      DeltaK.EncryptSpec(p) == SubstSpec(p, KeywordTable([], init))
  {
    assert Upper([]) == [];
    PlainOrderTable(init);
    DeltaKIsDefaultCipher(p);
  }
}
