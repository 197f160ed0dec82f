/** The word test applied to one text token of a page. */
module Scanner {
  import Strings

  /** The configured words that occur in `text`, in the order of `words`, each kept as often as it is configured. */
  function FoundIn(text: string, words: seq<string>): (found: seq<string>)
    ensures |found| <= |words|
  {
    if words == [] then []
    else
      assert words == [words[0]] + words[1..];
      (if Strings.Contains(text, words[0]) then [words[0]] else []) + FoundIn(text, words[1..])
  }

  /** The words found in a text are exactly the configured words that are substrings of it. */
  lemma {:induction false} FoundInMembers(text: string, words: seq<string>)
    ensures forall w :: w in FoundIn(text, words) <==> w in words && Strings.Contains(text, w)
  {
    if words != [] {
      assert words == [words[0]] + words[1..];
      FoundInMembers(text, words[1..]);
    }
  }

  /** Each configured word is found as many times as it is configured when it occurs in the text, and never otherwise. */
  lemma {:induction false} FoundInCounts(text: string, words: seq<string>)
    ensures forall w :: multiset(FoundIn(text, words))[w] == if Strings.Contains(text, w) then multiset(words)[w] else 0
  {
    if words != [] {
      assert words == [words[0]] + words[1..];
      FoundInCounts(text, words[1..]);
    }
  }

  /** The scan keeps the order of the configured words: scanning a concatenation concatenates the scans. */
  lemma {:induction false} FoundInAppend(text: string, a: seq<string>, b: seq<string>)
    ensures FoundIn(text, a + b) == FoundIn(text, a) + FoundIn(text, b)
  {
    if a == [] {
      assert a + b == b;
    } else {
      var head := if Strings.Contains(text, a[0]) then [a[0]] else [];
      assert (a + b)[0] == a[0] && (a + b)[1..] == a[1..] + b;
      assert FoundIn(text, a + b) == head + FoundIn(text, a[1..] + b);
      FoundInAppend(text, a[1..], b);
      assert FoundIn(text, a) == head + FoundIn(text, a[1..]);
    }
  }

  /** A single word is found exactly when it is a substring; in particular an empty word always is. */
  lemma FoundInSingle(text: string, w: string)
    ensures FoundIn(text, [w]) == if Strings.Contains(text, w) then [w] else []
    ensures w == [] ==> FoundIn(text, [w]) == [w]
  {
    assert [w][1..] == [];
  }
}
