/** The candidate-filtering logic of the program's entry point: it validates the letters
    the user typed, works out the word lengths asked for, and reports the candidates that
    are dictionary words of one of those lengths. Console input arrives as a sequence of
    lines; the report's output is a sequence of `Line` values, and the prompts are left out. */
module WordFilter {
  import opened Options
  import Trie
  import Dictionary

  // ---------------------------------------------------------------------------
  // Input validation

  /** One of the characters of the class `[a-zA-Z]`. */
  predicate IsLetter(c: char) {
    'a' <= c <= 'z' || 'A' <= c <= 'Z'
  }

  /** `s` matches the regular expression `[a-zA-Z]+` as a whole: at least one character,
      and every character a letter. */
  function MatchesLetters(s: string): (r: bool)
    ensures r <==> |s| > 0 && forall i :: 0 <= i < |s| ==> IsLetter(s[i])
  {
    if |s| == 0 then false
    else if |s| == 1 then IsLetter(s[0])
    else IsLetter(s[0]) && MatchesLetters(s[1..])
  }

  /** The prompt loop that reads the letters to permute: it reads lines until one is
      non-empty and alphabetic. `None` stands for input that runs out first, where
      nextLine throws. `consumed` counts the lines read. */
  method ReadLetters(lines: seq<string>) returns (word: Option<string>, consumed: nat)
    ensures consumed <= |lines|
    ensures forall j :: 0 <= j < consumed - 1 ==> !MatchesLetters(lines[j])
    ensures word.Some? ==>
      0 < consumed && word.value == lines[consumed - 1] &&
      |word.value| > 0 && forall i :: 0 <= i < |word.value| ==> IsLetter(word.value[i])
    ensures word.None? ==> consumed == |lines| && forall j :: 0 <= j < |lines| ==> !MatchesLetters(lines[j])
  {
    var wordsToLookFor := "";
    var wordIsValid := false;
    consumed := 0;
    while |wordsToLookFor| == 0 || !wordIsValid
      invariant consumed <= |lines|
      invariant consumed == 0 ==> !wordIsValid
      invariant consumed > 0 ==> wordsToLookFor == lines[consumed - 1]
      invariant consumed > 0 ==> (wordIsValid <==> MatchesLetters(lines[consumed - 1]))
      invariant forall j :: 0 <= j < consumed - 1 ==> !MatchesLetters(lines[j])
      decreases |lines| - consumed, if wordIsValid then 0 else 1
    {
      if consumed == |lines| {
        return None, consumed;
      }
      wordsToLookFor := lines[consumed];
      consumed := consumed + 1;
      wordIsValid := true;
      if !MatchesLetters(wordsToLookFor) {
        wordIsValid := false;
      }
    }
    word := Some(wordsToLookFor);
  }

  /** The prompt loop that reads the requested lengths: it reads lines until one is
      non-empty. `None` stands for input that runs out first. */
  method ReadDigits(lines: seq<string>) returns (digits: Option<string>, consumed: nat)
    ensures consumed <= |lines|
    ensures forall j :: 0 <= j < consumed - 1 ==> lines[j] == ""
    ensures digits.Some? ==> 0 < consumed && digits.value == lines[consumed - 1] && digits.value != ""
    ensures digits.None? ==> consumed == |lines| && forall j :: 0 <= j < |lines| ==> lines[j] == ""
  {
    var digitsLookingFor := "";
    consumed := 0;
    while |digitsLookingFor| == 0
      invariant consumed <= |lines|
      invariant consumed > 0 ==> digitsLookingFor == lines[consumed - 1]
      invariant forall j :: 0 <= j < consumed - 1 ==> lines[j] == ""
      invariant consumed == 0 ==> digitsLookingFor == ""
      decreases |lines| - consumed, |digitsLookingFor|
    {
      if consumed == |lines| {
        return None, consumed;
      }
      digitsLookingFor := lines[consumed];
      consumed := consumed + 1;
    }
    digits := Some(digitsLookingFor);
  }

  // ---------------------------------------------------------------------------
  // Requested lengths

  /** lengthSearch: whether `wordLength` is one of the requested lengths. */
  method LengthSearch(wordLength: int, digitLookingFor: seq<int>) returns (r: bool)
    ensures r <==> wordLength in digitLookingFor
  {
    for i := 0 to |digitLookingFor|
      invariant wordLength !in digitLookingFor[..i]
    {
      if wordLength == digitLookingFor[i] {
        return true;
      }
    }
    assert digitLookingFor[..|digitLookingFor|] == digitLookingFor;
    return false;
  }

  /** The `-n` request: every length from `ans` up to the length of the last candidate,
      in ascending order; none when `ans` exceeds that length. */
  method ExpandRange(ans: int, permutations: seq<string>) returns (digits: seq<int>)
    requires |permutations| > 0
    ensures var last := |permutations[|permutations| - 1]|;
      |digits| == (if ans <= last then last - ans + 1 else 0) &&
      forall x :: x in digits <==> ans <= x <= last
    ensures forall j, k :: 0 <= j < k < |digits| ==> digits[j] < digits[k]
  {
    var last := |permutations[|permutations| - 1]|;
    digits := [];
    var i := ans;
    while i <= last
      invariant ans <= i <= if ans <= last then last + 1 else ans
      invariant |digits| == i - ans
      invariant forall k :: 0 <= k < |digits| ==> digits[k] == ans + k
      decreases last - i
    {
      digits := digits + [i];
      i := i + 1;
    }
    assert forall x :: x in digits <==> ans <= x <= last by {
      forall x
        ensures x in digits <==> ans <= x <= last
      {
        if ans <= x <= last {
          assert digits[x - ans] == x;
        }
      }
    }
  }

  // ---------------------------------------------------------------------------
  // Reporting

  /** A candidate the report prints: a word of dictionary `m` of a requested length. */
  predicate Wanted(m: Trie.Node, x: string, digitLookingFor: seq<int>) {
    Trie.Search(m, x) && |x| in digitLookingFor
  }

  /** The candidates that are words of dictionary `m` and have a requested length, in
      the order of `permutations`. */
  function Selected(m: Trie.Node, permutations: seq<string>, digitLookingFor: seq<int>): seq<string>
  {
    if permutations == [] then []
    else
      var first := permutations[0];
      (if Wanted(m, first, digitLookingFor) then [first] else []) +
      Selected(m, permutations[1..], digitLookingFor)
  }

  /** Selection keeps a candidate exactly when the dictionary holds it and its length is
      requested. */
  lemma {:induction false} SelectedMembers(m: Trie.Node, permutations: seq<string>,
                                           digitLookingFor: seq<int>, x: string)
    ensures x in Selected(m, permutations, digitLookingFor) <==>
      x in permutations && Trie.Search(m, x) && |x| in digitLookingFor
  {
    if permutations != [] {
      SelectedMembers(m, permutations[1..], digitLookingFor, x);
      assert permutations == [permutations[0]] + permutations[1..];
    }
  }

  /** Selection works candidate by candidate and keeps their order: selecting from two
      lists in turn is selecting from their concatenation. */
  lemma {:induction false} SelectedConcat(m: Trie.Node, ps: seq<string>, qs: seq<string>,
                                          digitLookingFor: seq<int>)
    ensures Selected(m, ps + qs, digitLookingFor) ==
      Selected(m, ps, digitLookingFor) + Selected(m, qs, digitLookingFor)
  {
    if ps == [] {
      assert ps + qs == qs;
    } else {
      assert (ps + qs)[0] == ps[0];
      assert (ps + qs)[1..] == ps[1..] + qs;
      var head := if Wanted(m, ps[0], digitLookingFor) then [ps[0]] else [];
      assert Selected(m, ps + qs, digitLookingFor) == head + Selected(m, ps[1..] + qs, digitLookingFor);
      SelectedConcat(m, ps[1..], qs, digitLookingFor);
    }
  }

  /** A console line written by the report. */
  datatype Line =
    | Heading(word: string, lengths: seq<int>)      // "These are the valid permutations for ..."
    | Permutation(w: string)                        // one valid candidate
    | NoValidPermutations(word: string, lengths: seq<int>)  // "There are no valid permutations for ..."

  /** The lines printing the selected candidates, one each. */
  function Permutations(selected: seq<string>): (r: seq<Line>)
    ensures |r| == |selected|
    ensures forall k :: 0 <= k < |r| ==> r[k] == Permutation(selected[k])
  {
    if selected == [] then [] else [Permutation(selected[0])] + Permutations(selected[1..])
  }

  /** What the report has printed once `selected` are the hits so far: the heading and
      the hits, or nothing. */
  function Reported(wordsToLookFor: string, digitLookingFor: seq<int>, selected: seq<string>): seq<Line>
  {
    if selected == [] then [] else [Heading(wordsToLookFor, digitLookingFor)] + Permutations(selected)
  }

  /** What the report prints for the selected candidates: a heading followed by the
      candidates when there are any, else the single "no valid permutations" line. */
  function Transcript(wordsToLookFor: string, digitLookingFor: seq<int>, selected: seq<string>): seq<Line>
  {
    if selected == [] then [NoValidPermutations(wordsToLookFor, digitLookingFor)]
    else Reported(wordsToLookFor, digitLookingFor, selected)
  }

  /** The "no valid permutations" line appears exactly when nothing was selected, the
      heading exactly when something was, and then only as the first line. */
  lemma TranscriptMessages(wordsToLookFor: string, digitLookingFor: seq<int>, selected: seq<string>)
    ensures var t := Transcript(wordsToLookFor, digitLookingFor, selected);
      (NoValidPermutations(wordsToLookFor, digitLookingFor) in t <==> selected == []) &&
      (Heading(wordsToLookFor, digitLookingFor) in t <==> selected != []) &&
      forall k :: 0 < k < |t| ==> t[k].Permutation?
  {
    var t := Transcript(wordsToLookFor, digitLookingFor, selected);
    if selected != [] {
      assert t[0] == Heading(wordsToLookFor, digitLookingFor);
      assert forall k :: 0 < k < |t| ==> t[k] == Permutation(selected[k - 1]);
    }
  }

  /** A candidate is printed exactly when it was selected, and the printed candidates
      are the selected ones in order. */
  lemma TranscriptPermutations(wordsToLookFor: string, digitLookingFor: seq<int>, selected: seq<string>, x: string)
    ensures var t := Transcript(wordsToLookFor, digitLookingFor, selected);
      (Permutation(x) in t <==> x in selected) &&
      (selected != [] ==> t[1..] == Permutations(selected))
  {
    var t := Transcript(wordsToLookFor, digitLookingFor, selected);
    if x in selected {
      var k :| 0 <= k < |selected| && selected[k] == x;
      assert t[k + 1] == Permutation(x);
    }
    if Permutation(x) in t {
      var k :| 0 <= k < |t| && t[k] == Permutation(x);
      assert selected != [] && selected[k - 1] == x;
    }
  }

  /** The report loop: goes through the candidates in order, looks each up in the
      dictionary and checks its length, prints the heading before the first hit and the
      hit itself, and prints the "no valid permutations" line if there was none. */
  method Report(dictionary: Dictionary.Dictionary, wordsToLookFor: string,
                permutations: seq<string>, digitLookingFor: seq<int>) returns (output: seq<Line>)
    requires dictionary.Valid()
    ensures output == Transcript(wordsToLookFor, digitLookingFor,
                                 Selected(dictionary.model, permutations, digitLookingFor))
  {
    ghost var m := dictionary.model;
    var printInDictionary := true;
    output := [];
    ghost var selected: seq<string> := [];
    for i := 0 to |permutations|
      invariant selected == Selected(m, permutations[..i], digitLookingFor)
      invariant printInDictionary <==> selected == []
      invariant output == Reported(wordsToLookFor, digitLookingFor, selected)
    {
      var permute := permutations[i];
      var inDictionary := dictionary.SearchDictionary(permute);
      var hasLength := LengthSearch(|permute|, digitLookingFor);
      ReportStep(m, permutations, i, digitLookingFor);
      if inDictionary && hasLength {
        ReportedSnoc(wordsToLookFor, digitLookingFor, selected, permute);
        if printInDictionary {
          output := output + [Heading(wordsToLookFor, digitLookingFor)];
          printInDictionary := false;
        }
        output := output + [Permutation(permute)];
        selected := selected + [permute];
      }
    }
    assert permutations[..|permutations|] == permutations;
    if printInDictionary {
      output := output + [NoValidPermutations(wordsToLookFor, digitLookingFor)];
    }
  }

  /** Going one candidate further selects that candidate or nothing more. */
  lemma ReportStep(m: Trie.Node, permutations: seq<string>, i: nat, digitLookingFor: seq<int>)
    requires i < |permutations|
    ensures var p := permutations[i];
      Selected(m, permutations[..i + 1], digitLookingFor) ==
      Selected(m, permutations[..i], digitLookingFor) +
      (if Wanted(m, p, digitLookingFor) then [p] else [])
  {
    assert permutations[..i + 1] == permutations[..i] + [permutations[i]];
    SelectedConcat(m, permutations[..i], [permutations[i]], digitLookingFor);
  }

  /** One more hit prints the heading first if it is the first hit, then the hit. */
  lemma ReportedSnoc(wordsToLookFor: string, digitLookingFor: seq<int>, selected: seq<string>, x: string)
    ensures Reported(wordsToLookFor, digitLookingFor, selected + [x]) ==
      (if selected == [] then [Heading(wordsToLookFor, digitLookingFor)] else Reported(wordsToLookFor, digitLookingFor, selected)) +
      [Permutation(x)]
  {
    PermutationsSnoc(selected, x);
  }

  /** Printing one more candidate appends one line. */
  lemma PermutationsSnoc(selected: seq<string>, x: string)
    ensures Permutations(selected + [x]) == Permutations(selected) + [Permutation(x)]
  {
  }
}
