/** The ingestion clean-up `clean_arabic_text`: Python's `" ".join(text.split())`. */
module Whitespace {

  import Strings

  /** The characters Python's argument-less `str.split()` treats as whitespace. */
  predicate IsSpace(c: char)
  {
    ('\t' <= c <= '\r') || ('\U{001C}' <= c <= ' ') || c == '\U{0085}' || c == '\U{00A0}'
    || c == '\U{1680}' || ('\U{2000}' <= c <= '\U{200A}') || c == '\U{2028}' || c == '\U{2029}'
    || c == '\U{202F}' || c == '\U{205F}' || c == '\U{3000}'
  }

  /** A non-empty run of non-whitespace characters: what `str.split()` yields. */
  predicate IsWord(w: string)
  {
    w != [] && forall i :: 0 <= i < |w| ==> !IsSpace(w[i])
  }

  /** The text with its leading whitespace removed. */
  function SkipSpaces(s: string): (r: string)
    ensures |r| <= |s| && r == s[|s| - |r|..]
    ensures r != [] ==> !IsSpace(r[0])
  {
    if s != [] && IsSpace(s[0]) then SkipSpaces(s[1..]) else s
  }

  /** The longest prefix of `s` without whitespace. */
  function WordPrefix(s: string): (w: string)
    ensures |w| <= |s| && w == s[..|w|]
    ensures forall i :: 0 <= i < |w| ==> !IsSpace(w[i])
    ensures |w| < |s| ==> IsSpace(s[|w|])
    ensures s != [] && !IsSpace(s[0]) ==> w != []
  {
    if s == [] || IsSpace(s[0]) then [] else [s[0]] + WordPrefix(s[1..])
  }

  /** Python's `s.split()`: the maximal whitespace-free runs of `s`, in order. */
  function Split(s: string): seq<string>
    decreases |s|
  {
    var t := SkipSpaces(s);
    if t == [] then []
    else
      var w := WordPrefix(t);
      [w] + Split(t[|w|..])
  }

  /** `str.split()` yields only non-empty words without whitespace. */
  lemma {:induction false} SplitWords(s: string)
    ensures forall k :: 0 <= k < |Split(s)| ==> IsWord(Split(s)[k])
    decreases |s|
  {
    var t := SkipSpaces(s);
    if t != [] {
      var w := WordPrefix(t);
      SplitWords(t[|w|..]);
      var ws := Split(t[|w|..]);
      assert Split(s) == [w] + ws;
      forall k | 0 <= k < |Split(s)| ensures IsWord(Split(s)[k]) {
        if k > 0 { assert Split(s)[k] == ws[k - 1]; }
      }
    }
  }

  /** `clean_arabic_text(text)`. */
  function Clean(text: string): (r: string)
    ensures text == [] ==> r == []
  {
    if text == [] then [] else Strings.Join(" ", Split(text))
  }

  /** No leading or trailing whitespace, no two spaces in a row, and no
      whitespace character other than the plain space. */
  predicate Collapsed(s: string)
  {
    (s != [] ==> !IsSpace(s[0]) && !IsSpace(s[|s| - 1]))
    && (forall i :: 0 <= i < |s| && IsSpace(s[i]) ==> s[i] == ' ')
    && (forall i :: 0 <= i < |s| - 1 && s[i] == ' ' ==> s[i + 1] != ' ')
  }

  /** The text with every whitespace character removed. */
  function NonSpace(s: string): (r: string)
    ensures |r| <= |s|
    ensures forall i :: 0 <= i < |r| ==> !IsSpace(r[i])
  {
    if s == [] then [] else (if IsSpace(s[0]) then [] else [s[0]]) + NonSpace(s[1..])
  }

  /** The words concatenated without separators. */
  function Concat(words: seq<string>): string
  {
    if words == [] then [] else words[0] + Concat(words[1..])
  }

  /** Leading whitespace does not change the split. */
  lemma {:induction false} SplitLeadingSpace(c: char, s: string)
    requires IsSpace(c)
    ensures Split([c] + s) == Split(s)
  {
    assert SkipSpaces([c] + s) == SkipSpaces(s) by {
      assert ([c] + s)[1..] == s;
    }
    SplitOfTrimmed([c] + s, s);
  }

  /** The split depends only on the text after its leading whitespace. */
  lemma SplitOfTrimmed(a: string, b: string)
    requires SkipSpaces(a) == SkipSpaces(b)
    ensures Split(a) == Split(b)
  {
  }

  /** A word followed by whitespace or by nothing is exactly the word prefix. */
  lemma {:induction false} WordPrefixOfWord(w: string, rest: string)
    requires forall i :: 0 <= i < |w| ==> !IsSpace(w[i])
    requires rest == [] || IsSpace(rest[0])
    ensures WordPrefix(w + rest) == w
  {
    if w != [] {
      WordPrefixOfWord(w[1..], rest);
      assert (w + rest)[1..] == w[1..] + rest;
    } else {
      assert w + rest == rest;
    }
  }

  /** A text that starts with a whole word splits into that word and the split of the rest. */
  lemma {:induction false} SplitWordFirst(w: string, rest: string)
    requires IsWord(w)
    requires rest == [] || IsSpace(rest[0])
    ensures Split(w + rest) == [w] + Split(rest)
  {
    var t := w + rest;
    assert SkipSpaces(t) == t;
    WordPrefixOfWord(w, rest);
    assert t[|w|..] == rest;
  }

  lemma SplitOneWord(w: string)
    requires IsWord(w)
    ensures Split(w) == [w]
  {
    SplitWordFirst(w, []);
    assert w + [] == w;
  }

  lemma SplitWordSpace(w: string, rest: string)
    requires IsWord(w)
    ensures Split(w + " " + rest) == [w] + Split(rest)
  {
    assert w + " " + rest == w + ([' '] + rest);
    SplitWordFirst(w, [' '] + rest);
    SplitLeadingSpace(' ', rest);
  }

  /** Splitting undoes joining with single spaces. */
  lemma {:induction false} SplitJoin(words: seq<string>)
    requires forall k :: 0 <= k < |words| ==> IsWord(words[k])
    ensures Split(Strings.Join(" ", words)) == words
  {
    if |words| == 1 {
      assert Strings.Join(" ", words) == words[0];
      SplitOneWord(words[0]);
      assert words == [words[0]];
    } else if |words| > 1 {
      SplitJoin(words[1..]);
      SplitJoinStep(words);
    }
  }

  lemma SplitJoinStep(words: seq<string>)
    requires |words| > 1 && IsWord(words[0])
    requires Split(Strings.Join(" ", words[1..])) == words[1..]
    ensures Split(Strings.Join(" ", words)) == words
  {
    var w := words[0];
    var rest := Strings.Join(" ", words[1..]);
    JoinCons(" ", words);
    SplitWordSpace(w, rest);
    assert words == [w] + words[1..];
  }

  lemma JoinCons(sep: string, words: seq<string>)
    requires |words| > 1
    ensures Strings.Join(sep, words) == words[0] + sep + Strings.Join(sep, words[1..])
  {
  }

  /** Words joined with single spaces form a collapsed string. */
  lemma {:induction false} JoinCollapsed(words: seq<string>)
    requires forall k :: 0 <= k < |words| ==> IsWord(words[k])
    ensures Collapsed(Strings.Join(" ", words))
    ensures |words| > 0 ==> Strings.Join(" ", words) != []
  {
    if |words| > 1 {
      var w := words[0];
      var rest := Strings.Join(" ", words[1..]);
      var j := Strings.Join(" ", words);
      JoinCollapsed(words[1..]);
      assert j == w + " " + rest;
      forall i | 0 <= i < |j| && IsSpace(j[i]) ensures j[i] == ' ' {
        if i > |w| { assert j[i] == rest[i - |w| - 1]; }
      }
      forall i | 0 <= i < |j| - 1 && j[i] == ' ' ensures j[i + 1] != ' ' {
        if i == |w| {
          assert j[i + 1] == rest[0];
        } else if i > |w| {
          assert j[i] == rest[i - |w| - 1] && j[i + 1] == rest[i - |w|];
        }
      }
      assert j[|j| - 1] == rest[|rest| - 1];
    }
  }

  /** Cleaned text has no leading or trailing whitespace, no double space and
      no whitespace but the plain space. */
  lemma CleanCollapsed(text: string)
    ensures Collapsed(Clean(text))
  {
    if text != [] {
      SplitWords(text);
      JoinCollapsed(Split(text));
    }
  }

  /** The part of a collapsed string after its first space is collapsed too. */
  lemma CollapsedTail(s: string, k: nat)
    requires Collapsed(s) && k < |s| && s[k] == ' '
    ensures k + 1 < |s| && Collapsed(s[k + 1..]) && !IsSpace(s[k + 1])
  {
    var tail := s[k + 1..];
    assert s[k + 1] != ' ';
    forall i | 0 <= i < |tail| && IsSpace(tail[i]) ensures tail[i] == ' ' {
      assert tail[i] == s[k + 1 + i];
    }
    forall i | 0 <= i < |tail| - 1 && tail[i] == ' ' ensures tail[i + 1] != ' ' {
      assert tail[i] == s[k + 1 + i] && tail[i + 1] == s[k + 2 + i];
    }
  }

  /** A collapsed string starts with a whole word, followed by nothing or by
      one space and a collapsed rest. */
  lemma CollapsedFirstWord(s: string)
    requires Collapsed(s) && s != []
    ensures IsWord(WordPrefix(s))
    ensures |WordPrefix(s)| == |s| ==> WordPrefix(s) == s
    ensures |WordPrefix(s)| < |s| ==>
      s == WordPrefix(s) + " " + s[|WordPrefix(s)| + 1..] && Collapsed(s[|WordPrefix(s)| + 1..]) && s[|WordPrefix(s)| + 1..] != []
  {
    var w := WordPrefix(s);
    if |w| < |s| {
      CollapsedTail(s, |w|);
      assert s == w + " " + s[|w| + 1..];
    }
  }

  /** Cleaning a word, a space and a cleaned non-empty rest gives back that text. */
  lemma CleanWordSpace(w: string, tail: string)
    requires IsWord(w) && tail != [] && Clean(tail) == tail
    ensures Clean(w + " " + tail) == w + " " + tail
  {
    SplitWordSpace(w, tail);
    var ws := Split(tail);
    assert ws != [];
    assert ([w] + ws)[1..] == ws;
  }

  /** A collapsed string is left as it is by the clean-up. */
  lemma {:induction false} CollapsedIsClean(s: string)
    requires Collapsed(s)
    ensures Clean(s) == s
    decreases |s|
  {
    if s != [] {
      CollapsedFirstWord(s);
      var w := WordPrefix(s);
      if |w| == |s| {
        SplitOneWord(s);
      } else {
        var tail := s[|w| + 1..];
        CollapsedIsClean(tail);
        CleanWordSpace(w, tail);
      }
    }
  }

  /** The strings the clean-up leaves unchanged are exactly the collapsed ones. */
  lemma CleanFixedPoint(s: string)
    ensures Clean(s) == s <==> Collapsed(s)
  {
    CleanCollapsed(s);
    if Collapsed(s) { CollapsedIsClean(s); }
  }

  /** Cleaning twice is cleaning once. */
  lemma CleanIdempotent(text: string)
    ensures Clean(Clean(text)) == Clean(text)
  {
    CleanCollapsed(text);
    CollapsedIsClean(Clean(text));
  }

  lemma {:induction false} NonSpaceConcat(a: string, b: string)
    ensures NonSpace(a + b) == NonSpace(a) + NonSpace(b)
  {
    if a != [] {
      NonSpaceConcat(a[1..], b);
      assert (a + b)[1..] == a[1..] + b;
    } else {
      assert a + b == b;
    }
  }

  lemma {:induction false} NonSpaceOfWord(w: string)
    requires forall i :: 0 <= i < |w| ==> !IsSpace(w[i])
    ensures NonSpace(w) == w
  {
    if w != [] { NonSpaceOfWord(w[1..]); }
  }

  lemma {:induction false} NonSpaceSkip(s: string)
    ensures NonSpace(SkipSpaces(s)) == NonSpace(s)
  {
    if s != [] && IsSpace(s[0]) { NonSpaceSkip(s[1..]); }
  }

  /** Unfolds one step of the split of a text that is not all whitespace. */
  lemma SplitStep(s: string)
    requires SkipSpaces(s) != []
    ensures Split(s) == [WordPrefix(SkipSpaces(s))] + Split(SkipSpaces(s)[|WordPrefix(SkipSpaces(s))|..])
  {
  }

  /** Removing whitespace keeps the first word and then works on the rest. */
  lemma NonSpaceWordThenRest(t: string)
    ensures NonSpace(t) == WordPrefix(t) + NonSpace(t[|WordPrefix(t)|..])
  {
    var w := WordPrefix(t);
    var rest := t[|w|..];
    assert t == w + rest;
    NonSpaceConcat(w, rest);
    NonSpaceOfWord(w);
  }

  /** Removing the whitespace of a text leaves the concatenation of its words. */
  lemma {:induction false} NonSpaceSplit(s: string)
    ensures NonSpace(s) == Concat(Split(s))
    decreases |s|
  {
    var t := SkipSpaces(s);
    NonSpaceSkip(s);
    if t != [] {
      var w := WordPrefix(t);
      var rest := t[|w|..];
      SplitStep(s);
      NonSpaceWordThenRest(t);
      NonSpaceSplit(rest);
      ConcatCons(w, Split(rest));
    }
  }

  lemma ConcatCons(w: string, words: seq<string>)
    ensures Concat([w] + words) == w + Concat(words)
  {
    assert ([w] + words)[1..] == words;
  }

  lemma {:induction false} NonSpaceJoin(words: seq<string>)
    requires forall k :: 0 <= k < |words| ==> IsWord(words[k])
    ensures NonSpace(Strings.Join(" ", words)) == Concat(words)
  {
    if |words| == 1 {
      NonSpaceOfWord(words[0]);
      assert Concat(words[1..]) == [];
    } else if |words| > 1 {
      var w := words[0];
      var rest := Strings.Join(" ", words[1..]);
      NonSpaceConcat(w, " " + rest);
      NonSpaceConcat(" ", rest);
      NonSpaceOfWord(w);
      NonSpaceJoin(words[1..]);
      assert w + " " + rest == w + (" " + rest);
    }
  }

  /** The clean-up keeps every non-whitespace character, in order: removing
      the whitespace before or after cleaning gives the same text. */
  lemma CleanKeepsNonSpace(text: string)
    ensures NonSpace(Clean(text)) == NonSpace(text)
  {
    if text != [] {
      NonSpaceSplit(text);
      SplitWords(text);
      NonSpaceJoin(Split(text));
    }
  }

  /** A text made only of whitespace cleans to the empty string. */
  lemma CleanAllSpace(text: string)
    requires forall i :: 0 <= i < |text| ==> IsSpace(text[i])
    ensures Clean(text) == []
  {
    assert SkipSpaces(text) == [];
  }
}
