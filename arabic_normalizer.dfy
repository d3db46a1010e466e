/** The query normaliser `normalize_arabic` of the chat service: strip Arabic
    diacritics, then fold the Alef variants, Teh Marbuta and Alef Maksura. */
module ArabicNormalizer {

  /** A code point in U+0617..U+061A or U+064B..U+0652, the two ranges the
      diacritic pattern deletes. */
  predicate IsDiacritic(c: char)
  {
    ('\U{0617}' <= c <= '\U{061A}') || ('\U{064B}' <= c <= '\U{0652}')
  }

  const Alef: char := '\U{0627}'
  const AlefHamzaBelow: char := '\U{0625}'
  const AlefHamzaAbove: char := '\U{0623}'
  const AlefMadda: char := '\U{0622}'
  const TehMarbuta: char := '\U{0629}'
  const Heh: char := '\U{0647}'
  const AlefMaksura: char := '\U{0649}'
  const Yeh: char := '\U{064A}'

  /** A letter that the folding passes replace by another letter. */
  predicate IsFolded(c: char)
  {
    c == AlefHamzaBelow || c == AlefHamzaAbove || c == AlefMadda || c == TehMarbuta || c == AlefMaksura
  }

  /** The pass over `[إأآا]`, rewriting each to bare Alef. */
  function FoldAlef(c: char): char
  {
    if c == AlefHamzaBelow || c == AlefHamzaAbove || c == AlefMadda || c == Alef then Alef else c
  }

  /** The pass over `ة`, rewriting it to `ه`. */
  function FoldTehMarbuta(c: char): char
  {
    if c == TehMarbuta then Heh else c
  }

  /** The pass over `ى`, rewriting it to `ي`. */
  function FoldAlefMaksura(c: char): char
  {
    if c == AlefMaksura then Yeh else c
  }

  /** The three folding passes, in source order, applied to one character. */
  function FoldLetter(c: char): (r: char)
    ensures !IsFolded(r)
    ensures !IsDiacritic(c) ==> !IsDiacritic(r)
    ensures !IsFolded(c) ==> r == c
    ensures c == AlefHamzaBelow || c == AlefHamzaAbove || c == AlefMadda ==> r == Alef
    ensures c == TehMarbuta ==> r == Heh
    ensures c == AlefMaksura ==> r == Yeh
  {
    FoldAlefMaksura(FoldTehMarbuta(FoldAlef(c)))
  }

  /** The diacritic pass: delete every diacritic, keep everything else in order. */
  function StripDiacritics(s: string): (r: string)
    ensures |r| <= |s|
    ensures forall i :: 0 <= i < |r| ==> !IsDiacritic(r[i])
    ensures (forall i :: 0 <= i < |s| ==> !IsDiacritic(s[i])) ==> r == s
  {
    if s == [] then []
    else (if IsDiacritic(s[0]) then [] else [s[0]]) + StripDiacritics(s[1..])
  }

  /** The folding passes over a whole string: one output character per input character. */
  function FoldLetters(s: string): (r: string)
    ensures |r| == |s|
    ensures forall i :: 0 <= i < |s| ==> r[i] == FoldLetter(s[i])
  {
    if s == [] then [] else [FoldLetter(s[0])] + FoldLetters(s[1..])
  }

  /** `normalize_arabic(text)`. */
  function Normalize(text: string): (r: string)
    ensures text == [] ==> r == []
    ensures |r| <= |text|
    ensures forall i :: 0 <= i < |r| ==> !IsDiacritic(r[i]) && !IsFolded(r[i])
  {
    if text == [] then [] else FoldLetters(StripDiacritics(text))
  }

  /** Stripping distributes over concatenation: every character is kept or
      dropped on its own, so the order of the kept ones is the input order. */
  lemma {:induction false} StripDiacriticsConcat(a: string, b: string)
    ensures StripDiacritics(a + b) == StripDiacritics(a) + StripDiacritics(b)
  {
    if a != [] {
      StripDiacriticsConcat(a[1..], b);
      assert (a + b)[1..] == a[1..] + b;
    } else {
      assert a + b == b;
    }
  }

  /** Normalisation works character by character and keeps the order:
      normalising a concatenation is concatenating the normalised halves. */
  lemma NormalizeConcat(a: string, b: string)
    ensures Normalize(a + b) == Normalize(a) + Normalize(b)
  {
    StripDiacriticsConcat(a, b);
    var sa, sb := StripDiacritics(a), StripDiacritics(b);
    assert FoldLetters(sa + sb) == FoldLetters(sa) + FoldLetters(sb);
    if a == [] { assert a + b == b; }
    if b == [] { assert a + b == a; }
  }

  /** One character: a diacritic disappears, any other character becomes
      exactly one (possibly folded) character. */
  lemma NormalizeChar(c: char)
    ensures Normalize([c]) == if IsDiacritic(c) then [] else [FoldLetter(c)]
  {
  }

  /** Text that holds neither diacritics nor letters to fold is left as it is. */
  lemma NormalizePassThrough(s: string)
    requires forall i :: 0 <= i < |s| ==> !IsDiacritic(s[i]) && !IsFolded(s[i])
    ensures Normalize(s) == s
  {
  }

  /** Normalising twice is normalising once. */
  lemma NormalizeIdempotent(s: string)
    ensures Normalize(Normalize(s)) == Normalize(s)
  {
    NormalizePassThrough(Normalize(s));
  }
}
