/** The text body of the results email sent for one URL. */
module Notifier {
  import Strings

  /** The opening line of the body. */
  function Header(url: string): (line: string)
    ensures |line| == |url| + 16
  {
    "Words found on " + url + "\n"
  }

  /** The line listing one word. */
  function Bullet(word: string): (line: string)
    ensures |line| == |word| + 4
  {
    "\n - " + word
  }

  /** The bullet lines of `words`, in list order. */
  function Bullets(words: seq<string>): (text: string)
  {
    if words == [] then ""
    else Bullets(words[..|words| - 1]) + Bullet(words[|words| - 1])
  }

  /** The bullets of a concatenation are the bullets of each part, one after the other. */
  lemma {:induction false} BulletsAppend(a: seq<string>, b: seq<string>)
    ensures Bullets(a + b) == Bullets(a) + Bullets(b)
    decreases |b|
  {
    if b == [] {
      assert a + b == a;
    } else {
      var n := |b| - 1;
      assert (a + b)[..|a + b| - 1] == a + b[..n];
      BulletsAppend(a, b[..n]);
    }
  }

  /** Builds the body the way the source does, one bullet at a time. */
  method ResultsBody(words: seq<string>, url: string) returns (body: string)
    ensures body == Header(url) + Bullets(words)
  {
    body := Header(url);
    for i := 0 to |words|
      invariant body == Header(url) + Bullets(words[..i])
    {
      assert words[..i + 1][..i] == words[..i];
      body := body + Bullet(words[i]);
    }
    assert words[..|words|] == words;
  }

  /** The bullet of the word at position `i` sits between the bullets before it and those after it. */
  lemma BulletAt(words: seq<string>, i: nat)
    requires i < |words|
    ensures Bullets(words) == Bullets(words[..i]) + Bullet(words[i]) + Bullets(words[i + 1..])
  {
    var upTo := words[..i + 1];
    assert |upTo| - 1 == i && upTo[..i] == words[..i] && upTo[i] == words[i];
    assert Bullets(upTo) == Bullets(upTo[..i]) + Bullet(upTo[i]);
    assert words == upTo + words[i + 1..];
    BulletsAppend(upTo, words[i + 1..]);
  }

  lemma ContainsAfterPrefix(h: string, p: string, b: string, a: string)
    ensures Strings.Contains(h + (p + b + a), b)
  {
    assert h + (p + b + a) == (h + p) + b + a;
    Strings.ContainsInMiddle(h + p, b, a);
  }

  /** The bullet line of the word at position `i` appears in the body. */
  lemma BulletInBody(words: seq<string>, url: string, i: nat)
    requires i < |words|
    ensures Strings.Contains(Header(url) + Bullets(words), Bullet(words[i]))
  {
    BulletAt(words, i);
    ContainsAfterPrefix(Header(url), Bullets(words[..i]), Bullet(words[i]), Bullets(words[i + 1..]));
  }

  /** The body starts with the header and lists every word on a bullet line of its own. */
  lemma BodyListsEveryWord(words: seq<string>, url: string)
    ensures Strings.Contains(Header(url) + Bullets(words), Header(url))
    ensures forall w :: w in words ==> Strings.Contains(Header(url) + Bullets(words), Bullet(w))
  {
    Strings.ContainsInMiddle([], Header(url), Bullets(words));
    assert [] + Header(url) + Bullets(words) == Header(url) + Bullets(words);
    forall w | w in words
      ensures Strings.Contains(Header(url) + Bullets(words), Bullet(w))
    {
      var i :| 0 <= i < |words| && words[i] == w;
      BulletInBody(words, url, i);
    }
  }

  /** Each bullet adds four characters besides its word. */
  lemma {:induction false} BodyLength(words: seq<string>, url: string)
    ensures |Header(url) + Bullets(words)| == 16 + |url| + SumLengths(words) + 4 * |words|
    decreases |words|
  {
    if words != [] {
      var n := |words| - 1;
      BodyLength(words[..n], url);
      SumLengthsSnoc(words[..n], words[n]);
      assert words[..n] + [words[n]] == words;
    }
  }

  /** The total number of characters in `words`. */
  function SumLengths(words: seq<string>): (n: nat)
  {
    if words == [] then 0 else |words[0]| + SumLengths(words[1..])
  }

  lemma {:induction false} SumLengthsSnoc(words: seq<string>, w: string)
    ensures SumLengths(words + [w]) == SumLengths(words) + |w|
  {
    if words != [] {
      assert (words + [w])[1..] == words[1..] + [w];
      SumLengthsSnoc(words[1..], w);
    } else {
      assert [] + [w] == [w];
      assert [w][1..] == [];
    }
  }
}
