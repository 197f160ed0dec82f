/**
 * One scraping worker: fetch a URL, scan each text token of the page for the configured
 * words, send a match per word found, and always send one completion signal at the end.
 * The two channels are modelled as one list of the events the worker sends, in order.
 */
module Worker {
  import Strings
  import Scanner

  /** What a worker sends: a FoundWord on the match channel, or the signal on the completion channel. */
  datatype Event = Match(word: string, url: string) | Done

  /** The tokens the HTML tokenizer hands out; only text tokens carry data that is scanned. */
  datatype Token = ErrorToken | TextToken(data: string) | OtherToken

  /** The outcome of the single HTTP fetch: an error, or the page as a token stream. */
  datatype Fetch = FetchError(cause: string) | Page(tokens: seq<Token>)

  /** Number of completion signals in an event list. */
  function CountDone(evs: seq<Event>): (n: nat)
  {
    if evs == [] then 0 else (if evs[0].Done? then 1 else 0) + CountDone(evs[1..])
  }

  lemma {:induction false} CountDoneAppend(a: seq<Event>, b: seq<Event>)
    ensures CountDone(a + b) == CountDone(a) + CountDone(b)
  {
    if a == [] {
      assert a + b == b;
    } else {
      assert (a + b)[1..] == a[1..] + b;
      CountDoneAppend(a[1..], b);
    }
  }

  /**
   * The texts the worker scans: the data of the text tokens up to the first error token
   * (the tokenizer reports the end of the page as an error token; running out of tokens
   * counts as reaching it).
   */
  function TextsRead(tokens: seq<Token>): (texts: seq<string>)
    ensures |texts| <= |tokens|
  {
    if tokens == [] then []
    else
      match tokens[0]
      case ErrorToken => []
      case TextToken(d) => [d] + TextsRead(tokens[1..])
      case OtherToken => TextsRead(tokens[1..])
  }

  /**
   * A text is scanned exactly when it is the data of a text token that comes before the
   * first error token: every such text is scanned, and nothing after an error token is.
   */
  lemma {:induction false} TextsReadMembers(tokens: seq<Token>)
    ensures forall k, t :: 0 <= k < |tokens| && tokens[k] == TextToken(t) && ErrorToken !in tokens[..k] ==>
                           t in TextsRead(tokens)
    ensures forall t :: t in TextsRead(tokens) ==>
                        exists k :: 0 <= k < |tokens| && tokens[k] == TextToken(t) && ErrorToken !in tokens[..k]
  {
    if tokens != [] {
      var rest := tokens[1..];
      TextsReadMembers(rest);
      assert forall k :: 0 < k <= |tokens| ==> tokens[..k] == [tokens[0]] + rest[..k - 1];
      forall k, t | 0 <= k < |tokens| && tokens[k] == TextToken(t) && ErrorToken !in tokens[..k]
        ensures t in TextsRead(tokens)
      {
        if k > 0 {
          assert rest[k - 1] == TextToken(t) && ErrorToken !in rest[..k - 1];
        }
      }
      forall t | t in TextsRead(tokens)
        ensures exists k :: 0 <= k < |tokens| && tokens[k] == TextToken(t) && ErrorToken !in tokens[..k]
      {
        if tokens[0] == TextToken(t) {
          assert tokens[..0] == [];
        } else {
          assert t in TextsRead(rest);
          var k :| 0 <= k < |rest| && rest[k] == TextToken(t) && ErrorToken !in rest[..k];
          assert tokens[k + 1] == TextToken(t) && ErrorToken !in tokens[..k + 1];
        }
      }
    }
  }

  /** One match event per found word, in order; none of them is a completion signal. */
  function MatchEvents(url: string, found: seq<string>): (evs: seq<Event>)
    ensures CountDone(evs) == 0
  {
    var evs := seq(|found|, i requires 0 <= i < |found| => Match(found[i], url));
    MatchesCountNoDone(evs);
    evs
  }

  lemma MatchEventsMembers(url: string, found: seq<string>)
    ensures forall e :: e in MatchEvents(url, found) <==> exists w :: w in found && e == Match(w, url)
  {
    var evs := MatchEvents(url, found);
    assert forall w :: w in found ==> Match(w, url) == evs[IndexOf(found, w)];
  }

  function IndexOf(s: seq<string>, x: string): (i: nat)
    requires x in s
    ensures i < |s| && s[i] == x
  {
    if s[0] == x then 0 else 1 + IndexOf(s[1..], x)
  }

  lemma MatchEventsAppend(url: string, a: seq<string>, b: seq<string>)
    ensures MatchEvents(url, a + b) == MatchEvents(url, a) + MatchEvents(url, b)
  {
  }

  /** The match events sent while scanning the given texts. */
  function ScanEvents(url: string, texts: seq<string>, words: seq<string>): (evs: seq<Event>)
    ensures forall i :: 0 <= i < |evs| ==> evs[i].Match? && evs[i].url == url
  {
    if texts == [] then []
    else MatchEvents(url, Scanner.FoundIn(texts[0], words)) + ScanEvents(url, texts[1..], words)
  }

  /** Scanning sends only matches for its own URL, and a match for every configured word some text contains. */
  lemma {:induction false} ScanEventsMembers(url: string, texts: seq<string>, words: seq<string>)
    ensures forall e :: e in ScanEvents(url, texts, words) ==> e.Match? && e.url == url
    ensures forall w :: Match(w, url) in ScanEvents(url, texts, words) <==>
                        w in words && exists t :: t in texts && Strings.Contains(t, w)
  {
    if texts != [] {
      var here := MatchEvents(url, Scanner.FoundIn(texts[0], words));
      var rest := ScanEvents(url, texts[1..], words);
      ScanEventsMembers(url, texts[1..], words);
      MatchEventsMembers(url, Scanner.FoundIn(texts[0], words));
      Scanner.FoundInMembers(texts[0], words);
      assert forall t :: t in texts <==> t == texts[0] || t in texts[1..];
      assert forall e :: e in here + rest <==> e in here || e in rest;
    }
  }

  /** The page yielded a word: the fetch succeeded and some scanned text contains the configured word. */
  ghost predicate Seen(fetch: Fetch, words: seq<string>, w: string)
  {
    fetch.Page? && w in words && exists t :: t in TextsRead(fetch.tokens) && Strings.Contains(t, w)
  }

  /**
   * Everything the worker for `url` sends, in order: the matches of every scanned text
   * token (none when the fetch failed), then exactly one completion signal.
   */
  function WorkerEvents(url: string, fetch: Fetch, words: seq<string>): (evs: seq<Event>)
    ensures evs != [] && evs[|evs| - 1] == Done
    ensures forall i :: 0 <= i < |evs| - 1 ==> evs[i].Match? && evs[i].url == url
    ensures fetch.FetchError? ==> evs == [Done]
    ensures forall w, u :: Match(w, u) in evs <==> u == url && Seen(fetch, words, w)
  {
    if fetch.FetchError? then [Done]
    else
      var matches := ScanEvents(url, TextsRead(fetch.tokens), words);
      ScanEventsMembers(url, TextsRead(fetch.tokens), words);
      assert forall i :: 0 <= i < |matches| ==> matches[i] in matches;
      matches + [Done]
  }

  lemma {:induction false} MatchesCountNoDone(evs: seq<Event>)
    requires forall i :: 0 <= i < |evs| ==> evs[i].Match?
    ensures CountDone(evs) == 0
  {
    if evs != [] {
      MatchesCountNoDone(evs[1..]);
    }
  }

  /** Every worker sends exactly one completion signal, and it is the last thing it sends. */
  lemma WorkerSignalsOnce(url: string, fetch: Fetch, words: seq<string>)
    ensures CountDone(WorkerEvents(url, fetch, words)) == 1
  {
    var evs := WorkerEvents(url, fetch, words);
    var n := |evs| - 1;
    assert evs == evs[..n] + [Done];
    MatchesCountNoDone(evs[..n]);
    CountDoneAppend(evs[..n], [Done]);
  }

  /** The inner loop of the scan: test every configured word against one text token. */
  method ScanText(url: string, text: string, words: seq<string>) returns (sent: seq<Event>)
    ensures sent == MatchEvents(url, Scanner.FoundIn(text, words))
  {
    sent := [];
    for j := 0 to |words|
      invariant sent == MatchEvents(url, Scanner.FoundIn(text, words[..j]))
    {
      assert words[..j + 1] == words[..j] + [words[j]];
      Scanner.FoundInAppend(text, words[..j], [words[j]]);
      Scanner.FoundInSingle(text, words[j]);
      MatchEventsAppend(url, Scanner.FoundIn(text, words[..j]), Scanner.FoundIn(text, [words[j]]));
      if Strings.Contains(text, words[j]) {
        assert MatchEvents(url, [words[j]]) == [Match(words[j], url)];
        sent := sent + [Match(words[j], url)];
      } else {
        assert MatchEvents(url, []) == [];
      }
    }
    assert words[..|words|] == words;
  }

  /** The token loop of the scan; it stops at the first error token. */
  method ScanTokens(url: string, tokens: seq<Token>, words: seq<string>) returns (sent: seq<Event>)
    ensures sent == ScanEvents(url, TextsRead(tokens), words)
  {
    sent := [];
    var i := 0;
    while i < |tokens|
      invariant 0 <= i <= |tokens|
      invariant sent + ScanEvents(url, TextsRead(tokens[i..]), words) == ScanEvents(url, TextsRead(tokens), words)
    {
      assert tokens[i..][1..] == tokens[i + 1..];
      ghost var texts := TextsRead(tokens[i..]);
      if tokens[i].ErrorToken? {
        assert texts == [];
        assert sent + ScanEvents(url, texts, words) == sent;
        return;
      } else if tokens[i].TextToken? {
        var found := ScanText(url, tokens[i].data, words);
        assert texts == [tokens[i].data] + TextsRead(tokens[i + 1..]);
        assert texts[0] == tokens[i].data && texts[1..] == TextsRead(tokens[i + 1..]);
        assert ScanEvents(url, texts, words) == found + ScanEvents(url, TextsRead(tokens[i + 1..]), words);
        sent := sent + found;
      } else {
        assert texts == TextsRead(tokens[i + 1..]);
      }
      i := i + 1;
    }
  }

  /** The scrape of one URL; the completion signal is sent on every path, like a deferred send. */
  method Scrape(url: string, fetch: Fetch, words: seq<string>) returns (sent: seq<Event>)
    ensures sent == WorkerEvents(url, fetch, words)
  {
    sent := [];
    if fetch.Page? {
      sent := ScanTokens(url, fetch.tokens, words);
    }
    sent := sent + [Done];
  }
}
