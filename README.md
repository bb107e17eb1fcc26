# Delta-K cipher encoder, modelled in Dafny

The repository holds two generations of a base-3 substitution cipher in
which each letter A–Z is written as three glyphs from {▲, ▼, ◆}:

- the **Delta-K engine** (`include/Delta_K.hpp`, `src/Delta_K.cpp`): a
  constant table `TRIT_ALPHABET` giving each letter three trits, `GLYPHS`
  writing trit 0/1/2 as ▲/▼/◆, an unkeyed `encrypt` (three glyphs per
  letter, `/` per space, everything else copied), a keyed `encrypt` that
  adds the trits of the cycling key letter to those of the plaintext letter
  modulo 3 (the key index advances on letters only), `abcPosition` and a
  `keyValidation` that accepts non-empty all-letter keys;
- the **older keyword encoder** (`cipher-encoder.cpp`): an `encrypt` that
  substitutes each letter by its entry of a 26-entry table (default
  `CIPHER_ALPHABET`) and copies everything else, a `keyValidation` that
  wants letters that do not repeat up to case, `alphabetWithKey` which
  builds the keyword-first alphabet by erasing key letters from
  "ABC…Z" in place, and `keyedCipherAlphabet` which scatters the
  standard triples into an output array in that order.

The Dafny project has five modules:

| file | module | contents |
|---|---|---|
| `ascii.dfy` | `Ascii` | `isalpha`/`toupper` in the "C" locale, `abcPosition` (identical in both programs, modelled once), letter counting |
| `symbols.dfy` | `Symbols` | the glyph datatype, ciphertext symbols (a glyph or a copied character), small sequence facts |
| `delta_k_tables.dfy` | `DeltaKTables` | `ALPHABET_LENGTH`, `BASE`, `GLYPHS`, `TRIT_ALPHABET` and their properties |
| `delta_k.dfy` | `DeltaK` | both `encrypt` overloads and `keyValidation` of the engine |
| `cipher_encoder.dfy` | `CipherEncoder` | the older program, with its own `ALPHABET_LENGTH`, `CIPHER_ALPHABET`, `encrypt`, `keyValidation`, `alphabetWithKey`, `keyedCipherAlphabet` |

Each loop of the source is a Dafny method with a loop, proved equal to a
specification function (`EncryptSpec`, `KeyedSpec`, `SubstSpec`,
`KeyedAlphabet`, `Scatter`). `keyedCipherAlphabet` writes into a
caller-supplied `array`. The properties the programs promise are lemmas
about those functions. A ciphertext is a sequence of `Symbol`s: each glyph
is one abstract symbol rather than its UTF-8 bytes.

## Model

| member | source | states |
|---|---|---|
| Ascii.ToUpper | src/Delta_K.cpp:91 | `toupper` maps exactly the letters to upper-case letters, keeping the alphabet offset, and leaves every other character unchanged |
| Ascii.Upper | cipher-encoder.cpp:138-140 | the upper-cased key has the key's length and is `toupper` of it character by character |
| Ascii.AbcPosition | src/Delta_K.cpp:90-94 | `abcPosition(c)` lies in 0..25 exactly when c is a letter, and then 'A' + position is the upper-cased c; the older program's `abcPosition` is the same code |
| Ascii.AbcPositionCaseInsensitive | src/Delta_K.cpp:90-94 | two letters get the same position if and only if they agree up to case |
| DeltaKTables.TritAlphabetEntriesAreTrits | include/Delta_K.hpp:27-34 | the table has 26 rows of BASE entries, each a trit in 0..BASE-1 |
| DeltaKTables.TritAlphabetValues | include/Delta_K.hpp:27-34 | row i, read as a base-3 numeral, is i + 1 |
| DeltaKTables.TritAlphabetIsBase3 | include/Delta_K.hpp:28-33 | row i is the base-3 expansion of i + 1, most significant first, so {0,0,0} is never used |
| DeltaKTables.Base3Digits | include/Delta_K.hpp:22-25 | the three base-3 digits of n < 27 are trits and spell n |
| DeltaKTables.TritAlphabetInjective | include/Delta_K.hpp:22-34 | two rows are equal if and only if they belong to the same letter |
| DeltaKTables.CodeCoversAlphabet | include/Delta_K.hpp:9-14 | 26 letters fit in a fixed-width code of three base-3 digits |
| DeltaKTables.GlyphTableDistinct | include/Delta_K.hpp:14-20 | `GLYPHS` has BASE entries 0→▲, 1→▼, 2→◆, pairwise distinct |
| DeltaKTables.TritOf | include/Delta_K.hpp:16-20 | every glyph is `GLYPHS` of exactly one trit, the inverse of the table |
| DeltaKTables.GlyphRun | include/Delta_K.hpp:16-34 | a row of trits is written glyph by glyph with `GLYPHS`, and each glyph reads back as its trit |
| DeltaKTables.LetterRunGlyph | src/Delta_K.cpp:23-25 | glyph j written for letter n is `GLYPHS[TRIT_ALPHABET[n][j]]`, with an index in 0..2 |
| DeltaKTables.LetterRunInjective | include/Delta_K.hpp:22-34 | two letters get the same glyph run if and only if they are the same letter |
| DeltaK.Encrypt | src/Delta_K.cpp:15-34 | the unkeyed `encrypt` loop returns the per-character ciphertext of the whole plaintext |
| DeltaK.EncryptAppend | src/Delta_K.cpp:18-31 | the ciphertext of a concatenation is the concatenation of the ciphertexts |
| DeltaK.EncryptAt | src/Delta_K.cpp:18-31 | at the offset of position i: a letter gives `GLYPHS[TRIT_ALPHABET[abcPosition(c)][j]]` for j = 0..2, a space `/`, any other character itself |
| DeltaK.EncryptLength | src/Delta_K.cpp:16-31 | the ciphertext has 3 symbols per letter and 1 per other character; the empty plaintext gives the empty ciphertext |
| DeltaK.EncryptCaseInsensitive | src/Delta_K.cpp:21-24 | upper-casing the plaintext does not change its ciphertext |
| DeltaK.EncryptCharInjective | src/Delta_K.cpp:21-30 | a readable character (an upper-case letter, or an ASCII non-letter other than space and `/`) is determined by what it encrypts to |
| DeltaK.EncryptInjective | src/Delta_K.cpp:8-10 | two readable plaintexts (upper-case letters, ASCII non-letters except space and `/`) with the same ciphertext are equal |
| DeltaK.KeyValidation | src/Delta_K.cpp:102-113 | true if and only if the key is non-empty and all letters; false for the empty key |
| DeltaK.KeyedRow | src/Delta_K.cpp:69-70 | the added trits `(plain[j] + key[j]) % 3` are three trits in 0..2 |
| DeltaK.KeyedRunGlyph | src/Delta_K.cpp:68-72 | glyph j of the keyed run is `GLYPHS[(TRIT_ALPHABET[a][j] + TRIT_ALPHABET[b][j]) % 3]`, the index in 0..2 |
| DeltaK.WriteKeyedRun | src/Delta_K.cpp:68-72 | the inner j-loop appends exactly the keyed run of the plaintext letter under the key letter |
| DeltaK.EncryptKeyed | src/Delta_K.cpp:55-83 | for a valid key, the keyed `encrypt` loop (with its `keyIndex` counter) returns the keyed ciphertext of the whole plaintext |
| DeltaK.KeyedPrefix | src/Delta_K.cpp:59-80 | the keyed ciphertext of a prefix is a prefix of the keyed ciphertext: output is only appended |
| DeltaK.KeyedLetterAt | src/Delta_K.cpp:57-74 | the letter at position i, the k-th letter, is combined with key letter `key[k mod (key length)]`, giving its keyed run at its offset |
| DeltaK.KeyedNonLetterAt | src/Delta_K.cpp:75-79 | a non-letter is written as `/` (space) or itself, and does not advance the key index |
| DeltaK.KeyedMatchesUnkeyed | src/Delta_K.cpp:55-83 | keyed and unkeyed ciphertexts have the same length and agree wherever either holds a copied character |
| DeltaK.AddGlyphsCancel | src/Delta_K.cpp:69-70 | adding the same glyph modulo 3 keeps two glyphs apart and equal ones equal |
| DeltaK.KeyedRunAddsRuns | src/Delta_K.cpp:68-72 | the keyed run is the plaintext letter's unkeyed run added glyph by glyph to the key letter's run |
| DeltaK.KeyedRunInjective | src/Delta_K.cpp:68-72 | under a fixed key letter, two plaintext letters get the same keyed run if and only if they are equal |
| DeltaK.ModPeriod | src/Delta_K.cpp:63 | `keyIndex % key.length()` repeats with period `key.length()` |
| DeltaK.KeyedPeriodic | src/Delta_K.cpp:63-72 | the same letter, up to case, at letter counts k and k + (key length) is written as the same glyph run |
| DeltaK.KeyedGlyphCount | src/Delta_K.cpp:62-74 | the keyed ciphertext holds exactly 3 glyphs per plaintext letter |
| DeltaK.KeyedLength | src/Delta_K.cpp:56-80 | the keyed ciphertext has 3 symbols per letter and 1 per other character, and is empty exactly for the empty plaintext |
| DeltaK.KeyedCharInjective | src/Delta_K.cpp:62-79 | under the same key letter a readable character (upper-case letter, or ASCII non-letter other than space and `/`) is determined by its keyed output |
| DeltaK.KeyedInjective | src/Delta_K.cpp:55-83 | under a valid key, two readable plaintexts (upper-case letters, ASCII non-letters except space and `/`) with the same keyed ciphertext are equal |
| CipherEncoder.CipherAlphabetIsTritCode | cipher-encoder.cpp:22-25 | entry i of `CIPHER_ALPHABET` is the Delta-K glyph run of letter i, `GLYPHS` applied to `TRIT_ALPHABET[i]` |
| CipherEncoder.CipherAlphabetIsTable | cipher-encoder.cpp:22-25 | `CIPHER_ALPHABET` has 26 entries of three glyphs, pairwise distinct |
| CipherEncoder.StdAlphabet | cipher-encoder.cpp:136 | the plain alphabet has 26 characters, the i-th being the letter with position i |
| CipherEncoder.PlainAlphabetLiteral | cipher-encoder.cpp:136 | the literal "ABC…Z" is that plain alphabet |
| CipherEncoder.Encrypt | cipher-encoder.cpp:78-90 | the `encrypt` loop returns the substitution ciphertext of the whole plaintext under the given table |
| CipherEncoder.SubstAppend | cipher-encoder.cpp:81-87 | the ciphertext of a concatenation is the concatenation of the ciphertexts |
| CipherEncoder.SubstLength | cipher-encoder.cpp:78-90 | under a table of triples, 3 symbols per letter and 1 per other character; empty input gives empty output |
| CipherEncoder.SpacesToSlashes | src/Delta_K.cpp:26-27 | spaces become `/`, everything else is kept, position by position |
| CipherEncoder.DeltaKIsDefaultCipher | cipher-encoder.cpp:22-28 | the engine's unkeyed cipher is this `encrypt` with the default table after spaces become `/`, and equals it on text without spaces |
| CipherEncoder.SubstCharInjective | cipher-encoder.cpp:82-86 | under a table of distinct triples a readable character (upper-case letter or ASCII non-letter) is determined by its output |
| CipherEncoder.SubstInjective | cipher-encoder.cpp:78-90 | under a table of distinct triples, two readable plaintexts (upper-case letters and ASCII non-letters) with the same ciphertext are equal |
| CipherEncoder.SetSizeDistinct | cipher-encoder.cpp:124-125 | the set of a string's characters is never larger than the string, and as large exactly when nothing repeats |
| CipherEncoder.UpperKeySize | cipher-encoder.cpp:124-125 | for a key of letters, the set of upper-cased letters is as large as the upper-cased key exactly when no letter repeats up to case |
| CipherEncoder.KeyValidation | cipher-encoder.cpp:109-126 | true if and only if the key is all letters with no letter repeated up to case; true for the empty key |
| CipherEncoder.EraseEachStep | cipher-encoder.cpp:142-149 | erasing the key's letters one after another, one more step erases the next letter's first occurrence |
| CipherEncoder.EraseFirstAt | cipher-encoder.cpp:143-147 | `erase(j, 1)` at the first match j removes exactly that character |
| CipherEncoder.EraseFirstAbsent | cipher-encoder.cpp:143-148 | when the letter is not found, the inner loop leaves the alphabet unchanged |
| CipherEncoder.AlphabetWithKey | cipher-encoder.cpp:135-153 | the nested loops return the upper-cased key followed by what remains of "ABC…Z" after erasing each key letter's first occurrence |
| CipherEncoder.Without | cipher-encoder.cpp:142-151 | the letters left after erasing are exactly those of the alphabet not in the key |
| CipherEncoder.EraseEachIsWithout | cipher-encoder.cpp:142-149 | in a string without repeats, erasing each key letter in turn keeps exactly the characters not in the key, in order |
| CipherEncoder.KeyedAlphabetShape | cipher-encoder.cpp:135-153 | for any key: the upper-cased key, then the letters absent from it in alphabetical order |
| CipherEncoder.WithoutLength | cipher-encoder.cpp:142-149 | dropping a set from a string without repeats removes one character per member that occurs |
| CipherEncoder.KeyedAlphabetLength | cipher-encoder.cpp:138-151 | for a key of letters the result has 26 + (key length) − (distinct letters) characters, and exactly 26 if and only if no letter repeats |
| CipherEncoder.StdAlphabetDistinct | cipher-encoder.cpp:136 | "ABC…Z" has no repeat and holds exactly the upper-case letters |
| CipherEncoder.KeyedAlphabetIsPermutation | cipher-encoder.cpp:128-153 | for a key accepted by `keyValidation`: 26 characters, a permutation of A–Z, starting with the upper-cased key |
| CipherEncoder.AlphabetOrderFacts | cipher-encoder.cpp:160 | a permutation of A–Z has 26 distinct upper-case letters and every upper-case letter occurs |
| CipherEncoder.Scatter | cipher-encoder.cpp:163-167 | the table after the loop's first n steps has 26 entries |
| CipherEncoder.KeyedCipherAlphabet | cipher-encoder.cpp:163-167 | the loop leaves `output` as the initial array with `output[keyedAlphabet[i] - 'A'] = CIPHER_ALPHABET[i]` applied for i = 0..25 |
| CipherEncoder.ScatterAt | cipher-encoder.cpp:164-166 | with distinct letters, letter `keyedAlphabet[i]`'s slot holds `CIPHER_ALPHABET[i]`: no later step overwrites it |
| CipherEncoder.KeyedTable | cipher-encoder.cpp:155-167 | for a permutation of A–Z every slot is written: the result maps letter ka[i] to `CIPHER_ALPHABET[i]`, does not depend on what `output` held, and is a table of distinct triples |
| CipherEncoder.KeyedTableIsPermutation | cipher-encoder.cpp:163-167 | for a permutation of A–Z the table built is a reordering of `CIPHER_ALPHABET`: every standard triple is written to exactly one slot |
| CipherEncoder.PlainOrderTable | cipher-encoder.cpp:163-167 | scattering in plain order rebuilds `CIPHER_ALPHABET` |
| CipherEncoder.KeywordTable | cipher-encoder.cpp:59-60 | the table built for a valid key has 26 entries |
| CipherEncoder.KeywordTableMaps | cipher-encoder.cpp:59-61 | under that table the i-th keyed-alphabet letter, and so the i-th key letter in either case, encrypts to the i-th standard triple; the table is a table of distinct triples |
| CipherEncoder.KeywordDecodable | cipher-encoder.cpp:59-61 | text encrypted under the table built for a valid key can be read back: readable plaintexts (upper-case letters and ASCII non-letters) with equal ciphertexts are equal |
| CipherEncoder.EmptyKeyIsPlain | cipher-encoder.cpp:136-151 | the empty key gives "ABC…Z" and the table `CIPHER_ALPHABET`, so the keyword cipher equals the default cipher, and the engine's unkeyed cipher on text without spaces |

## Left out

- `decrypt` (src/Delta_K.cpp:36-40) is a stub that returns nothing; no decoder and no decode round trip are modelled. The injectivity lemmas show that the ciphertext determines readable plaintexts.
- `isGlyph`, `glyphVal` and `abcSearch` are declared in include/Delta_K.hpp:46-48 but defined in no file; they are not modelled.
- `main` (cipher-encoder.cpp:42-68): console input and output and the re-prompt loop are not modelled. How it wires `alphabetWithKey`, `keyedCipherAlphabet` and `encrypt` together is modelled as `KeywordTable`.
- Glyphs are abstract symbols, not their multi-byte UTF-8 strings; ciphertext lengths count symbols, not bytes.
- A glyph character (▲, ▼ or ◆) in the plaintext is copied as its UTF-8 bytes, which are the bytes a glyph run is written with, so the real output cannot tell it from a letter. The model keeps a copied character apart from a glyph, which is why the injectivity lemmas are stated only for ASCII plaintext.
- `std::isalpha` and `std::toupper` are modelled for the "C" locale on ASCII; other locales and negative `char` values are not modelled.
- DeltaK.EncryptKeyed: requires a key that passes `keyValidation`, the guard the program relies on. With an empty key `keyIndex % key.length()` divides by zero. A non-letter key character makes `abcPosition` index outside `TRIT_ALPHABET` once the key cycle reaches it, so on a short plaintext a key such as "A1" is still safe; the requirement asks more than safety needs there. Neither undefined behaviour is modelled.
- DeltaK.WriteKeyedRun: requires both positions in 0..25, which every call from `EncryptKeyed` meets under a valid key.
- CipherEncoder.Encrypt: requires a table of 26 entries, the C++ array type `std::string (&)[ALPHABET_LENGTH]`.
- CipherEncoder.KeyedCipherAlphabet: requires the first 26 characters of `keyedAlphabet` to be upper-case letters. The source indexes `output[keyedAlphabet[i] - 'A']` unchecked and is out of range otherwise. Keys that pass `keyValidation` always meet this, by `KeyedAlphabetIsPermutation`.
- CipherEncoder.Scatter: its contract states only the table size. What it contains is stated by `ScatterAt`, `KeyedTable` and `PlainOrderTable`.
- CipherEncoder.KeywordTable: its contract states only the table size; the mapping is stated by `KeywordTableMaps`.
- CipherEncoder.AlphabetWithKey: starts from `StdAlphabet()`, which `PlainAlphabetLiteral` proves equal to the literal "ABCDEFGHIJKLMNOPQRSTUVWXYZ". The in-place `erase` is modelled as rebuilding the string value around the erased character.
- The older program's description promises a 26-character result from `alphabetWithKey`. With a key that repeats a letter the code returns more, because the repeat is written again but erases nothing. The model follows the code: `KeyedAlphabetLength` gives the exact length. `main` never passes such a key, since `keyValidation` rejects it.
- The two `keyValidation` functions differ on the empty key: the engine rejects it, the older program accepts it. Both are modelled as written.
