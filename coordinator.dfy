/**
 * The coordinator: one consuming loop that receives the matches and completion signals of all
 * workers, in whatever order they arrive, records each word once per URL, and stops after one
 * completion signal per URL.
 */
module Coordinator {
  import Strings
  import Worker

  /** URL to the words found on it, in order of arrival. */
  type ResultSet = map<string, seq<string>>

  /** Linear membership search over a list of words. */
  function Contains(s: seq<string>, e: string): (r: bool)
    ensures r <==> exists i :: 0 <= i < |s| && s[i] == e
    ensures s == [] ==> !r
  {
    if s == [] then false
    else if s[0] == e then true
    else
      assert forall i :: 0 < i < |s| ==> s[i] == s[1..][i - 1];
      Contains(s[1..], e)
  }

  /**
   * Reading a URL that has no entry yields the empty list; in a well-formed result set that
   * is the only way to read an empty list, and a list read is never a duplicate.
   */
  function Lookup(m: ResultSet, u: string): (ws: seq<string>)
    ensures u in m ==> ws == m[u]
    ensures u !in m ==> ws == []
    ensures WellFormed(m) ==> (ws == [] <==> u !in m) && Distinct(ws)
  {
    if u in m then m[u] else []
  }

  ghost predicate Distinct(s: seq<string>)
  {
    forall i, j :: 0 <= i < j < |s| ==> s[i] != s[j]
  }

  /** No URL lists a word twice, and every URL that has an entry has at least one word. */
  ghost predicate WellFormed(m: ResultSet)
  {
    forall u :: u in m ==> m[u] != [] && Distinct(m[u])
  }

  /** The effect of one received event on the result set. */
  function Record(m: ResultSet, e: Worker.Event): (m': ResultSet)
    ensures e.Done? ==> m' == m
    ensures e.Match? && e.word in Lookup(m, e.url) ==> m' == m
    ensures e.Match? && e.word !in Lookup(m, e.url) ==> m' == m[e.url := Lookup(m, e.url) + [e.word]]
    ensures m'.Keys == if e.Match? then m.Keys + {e.url} else m.Keys
    ensures WellFormed(m) ==> WellFormed(m')
  {
    match e
    case Done => m
    case Match(w, u) =>
      if Contains(Lookup(m, u), w) then m
      else m[u := Lookup(m, u) + [w]]
  }

  /** A URL lists a word after an event exactly when it listed it before or the event is that match. */
  lemma RecordWords(m: ResultSet, e: Worker.Event)
    ensures forall u, w :: w in Lookup(Record(m, e), u) <==> w in Lookup(m, u) || e == Worker.Match(w, u)
  {
  }

  /** Receiving the same match twice has the effect of receiving it once. */
  lemma RecordIdempotent(m: ResultSet, e: Worker.Event)
    ensures Record(Record(m, e), e) == Record(m, e)
  {
    if e.Match? {
      assert e.word in Lookup(Record(m, e), e.url);
    }
  }

  /** The result set after receiving `evs` in order. */
  function Accumulate(m: ResultSet, evs: seq<Worker.Event>): (m': ResultSet)
    ensures WellFormed(m) ==> WellFormed(m')
    decreases |evs|
  {
    if evs == [] then m
    else Record(Accumulate(m, evs[..|evs| - 1]), evs[|evs| - 1])
  }

  /**
   * After any sequence of events, a URL lists exactly the words it listed before plus the
   * words of the matches received for it, and has an entry exactly when it had one or
   * received a match.
   */
  lemma {:induction false} AccumulateWords(m: ResultSet, evs: seq<Worker.Event>)
    ensures forall u, w :: w in Lookup(Accumulate(m, evs), u) <==> w in Lookup(m, u) || Worker.Match(w, u) in evs
    ensures forall u :: u in Accumulate(m, evs) <==> u in m || exists w :: Worker.Match(w, u) in evs
  {
    if evs != [] {
      var n := |evs| - 1;
      AccumulateWords(m, evs[..n]);
      RecordWords(Accumulate(m, evs[..n]), evs[n]);
      assert evs == evs[..n] + [evs[n]];
      assert forall e :: e in evs <==> e in evs[..n] || e == evs[n];
    }
  }

  /** The words recorded for each URL do not depend on the order in which the events arrive. */
  lemma ArrivalOrderIrrelevant(m: ResultSet, evs1: seq<Worker.Event>, evs2: seq<Worker.Event>)
    requires multiset(evs1) == multiset(evs2)
    ensures Accumulate(m, evs1).Keys == Accumulate(m, evs2).Keys
    ensures forall u, w :: w in Lookup(Accumulate(m, evs1), u) <==> w in Lookup(Accumulate(m, evs2), u)
  {
    AccumulateWords(m, evs1);
    AccumulateWords(m, evs2);
    assert forall e :: e in evs1 <==> e in multiset(evs1);
    assert forall e :: e in evs2 <==> e in multiset(evs2);
  }

  /** The state of the consuming loop: the result map and the completion counter. */
  class Collector {
    var results: ResultSet
    var c: nat
    const urlCount: nat

    ghost predicate Valid()
      reads this
    {
      WellFormed(results) && c <= urlCount
    }

    constructor (urlCount: nat)
      ensures Valid()
      ensures results == map[] && c == 0 && this.urlCount == urlCount
    {
      results := map[];
      c := 0;
      this.urlCount := urlCount;
    }

    /** One turn of the loop: record a match, or count a completion signal. */
    method Receive(e: Worker.Event)
      requires Valid() && c < urlCount
      modifies this
      ensures Valid()
      ensures results == Record(old(results), e)
      ensures c == old(c) + (if e.Done? then 1 else 0)
    {
      results := Record(results, e);
      if e.Done? {
        c := c + 1;
      }
    }

    /**
     * The loop: receive events in order until one completion signal per URL has arrived.
     * Returns how many events were consumed; if the events run out first, the real loop
     * would block waiting for more.
     */
    method Collect(events: seq<Worker.Event>) returns (n: nat)
      requires Valid()
      modifies this
      ensures Valid()
      ensures n <= |events|
      ensures results == Accumulate(old(results), events[..n])
      ensures c == old(c) + Worker.CountDone(events[..n])
      ensures forall k :: 0 <= k < n ==> old(c) + Worker.CountDone(events[..k]) < urlCount
      ensures n < |events| ==> c == urlCount
    {
      n := 0;
      while c < urlCount && n < |events|
        invariant Valid()
        invariant n <= |events|
        invariant results == Accumulate(old(results), events[..n])
        invariant c == old(c) + Worker.CountDone(events[..n])
        invariant forall k :: 0 <= k < n ==> old(c) + Worker.CountDone(events[..k]) < urlCount
      {
        Receive(events[n]);
        assert events[..n + 1][..n] == events[..n];
        Worker.CountDoneAppend(events[..n], [events[n]]);
        assert events[..n + 1] == events[..n] + [events[n]];
        n := n + 1;
      }
    }
  }

  /**
   * `arrival` is an interleaving of the worker streams: each step takes the next event of
   * some worker, and every event of every worker is taken, so nothing is lost or invented.
   */
  ghost predicate Merge(arrival: seq<Worker.Event>, streams: seq<seq<Worker.Event>>)
    ensures Merge(arrival, streams) ==> |arrival| == TotalLength(streams)
    decreases |arrival|, 1
  {
    if arrival == [] then
      TotalLengthOfEmpty(streams);
      forall j :: 0 <= j < |streams| ==> streams[j] == []
    else
      exists j :: MergeStep(arrival, streams, j)
  }

  /** The first arrival is the next event of worker `j`, and the rest interleaves what remains. */
  ghost predicate MergeStep(arrival: seq<Worker.Event>, streams: seq<seq<Worker.Event>>, j: int)
    requires arrival != []
    ensures MergeStep(arrival, streams, j) ==> |arrival| == TotalLength(streams)
    decreases |arrival|, 0
  {
    0 <= j < |streams| && streams[j] != [] && streams[j][0] == arrival[0]
    && (TotalLengthUpdate(streams, j, streams[j][1..]); Merge(arrival[1..], streams[j := streams[j][1..]]))
  }

  /** The number of events in all streams together. */
  function TotalLength(streams: seq<seq<Worker.Event>>): (n: nat)
  {
    if streams == [] then 0 else |streams[0]| + TotalLength(streams[1..])
  }

  lemma {:induction false} TotalLengthOfEmpty(streams: seq<seq<Worker.Event>>)
    ensures (forall j :: 0 <= j < |streams| ==> streams[j] == []) ==> TotalLength(streams) == 0
  {
    if streams != [] {
      TotalLengthOfEmpty(streams[1..]);
      if forall j :: 0 <= j < |streams| ==> streams[j] == [] {
        assert forall j :: 0 <= j < |streams[1..]| ==> streams[1..][j] == streams[j + 1];
      }
    }
  }

  lemma {:induction false} TotalLengthUpdate(streams: seq<seq<Worker.Event>>, j: nat, s: seq<Worker.Event>)
    requires j < |streams|
    ensures TotalLength(streams[j := s]) + |streams[j]| == TotalLength(streams) + |s|
  {
    if j > 0 {
      assert streams[j := s][1..] == streams[1..][j - 1 := s];
      TotalLengthUpdate(streams[1..], j - 1, s);
    }
  }

  function TotalDone(streams: seq<seq<Worker.Event>>): (n: nat)
  {
    if streams == [] then 0 else Worker.CountDone(streams[0]) + TotalDone(streams[1..])
  }

  lemma {:induction false} TotalDoneUpdate(streams: seq<seq<Worker.Event>>, j: nat, s: seq<Worker.Event>)
    requires j < |streams|
    ensures TotalDone(streams[j := s]) + Worker.CountDone(streams[j]) == TotalDone(streams) + Worker.CountDone(s)
  {
    if j > 0 {
      assert streams[j := s][1..] == streams[1..][j - 1 := s];
      TotalDoneUpdate(streams[1..], j - 1, s);
    }
  }

  lemma {:induction false} TotalDoneOfEmpty(streams: seq<seq<Worker.Event>>)
    requires forall j :: 0 <= j < |streams| ==> streams[j] == []
    ensures TotalDone(streams) == 0
  {
    if streams != [] {
      TotalDoneOfEmpty(streams[1..]);
    }
  }

  lemma {:induction false} TotalDoneOfSingles(streams: seq<seq<Worker.Event>>)
    requires forall j :: 0 <= j < |streams| ==> Worker.CountDone(streams[j]) == 1
    ensures TotalDone(streams) == |streams|
  {
    if streams != [] {
      TotalDoneOfSingles(streams[1..]);
    }
  }

  /** An interleaving carries every completion signal of every worker, and no other. */
  lemma {:induction false} MergeCountDone(arrival: seq<Worker.Event>, streams: seq<seq<Worker.Event>>)
    requires Merge(arrival, streams)
    ensures Worker.CountDone(arrival) == TotalDone(streams)
    decreases |arrival|
  {
    if arrival == [] {
      TotalDoneOfEmpty(streams);
    } else {
      var j :| MergeStep(arrival, streams, j);
      MergeCountDone(arrival[1..], streams[j := streams[j][1..]]);
      TotalDoneUpdate(streams, j, streams[j][1..]);
    }
  }

  /** An interleaving holds exactly the events of the worker streams. */
  lemma {:induction false} MergeMembers(arrival: seq<Worker.Event>, streams: seq<seq<Worker.Event>>)
    requires Merge(arrival, streams)
    ensures forall e :: e in arrival <==> exists j :: 0 <= j < |streams| && e in streams[j]
    decreases |arrival|
  {
    if arrival != [] {
      var j :| MergeStep(arrival, streams, j);
      var rest := streams[j := streams[j][1..]];
      MergeMembers(arrival[1..], rest);
      assert streams[j] == [arrival[0]] + rest[j];
      forall e
        ensures e in arrival <==> exists k :: 0 <= k < |streams| && e in streams[k]
      {
        if e == arrival[0] {
          assert e in streams[j];
        }
        if e in arrival && e != arrival[0] {
          assert e in arrival[1..];
          var k :| 0 <= k < |rest| && e in rest[k];
          assert e in streams[k];
        }
        if e != arrival[0] && exists k :: 0 <= k < |streams| && e in streams[k] {
          var k :| 0 <= k < |streams| && e in streams[k];
          assert e in rest[k];
          assert e in arrival[1..];
        }
      }
    }
  }

  /** When every worker stream ends with its completion signal, so does any interleaving of them. */
  lemma {:induction false} MergeEndsWithDone(arrival: seq<Worker.Event>, streams: seq<seq<Worker.Event>>)
    requires Merge(arrival, streams)
    requires forall j :: 0 <= j < |streams| ==> streams[j] == [] || streams[j][|streams[j]| - 1] == Worker.Done
    requires arrival != []
    ensures arrival[|arrival| - 1] == Worker.Done
    decreases |arrival|
  {
    var j :| MergeStep(arrival, streams, j);
    var rest := streams[j := streams[j][1..]];
    assert Merge(arrival[1..], rest);
    if |arrival| == 1 {
      assert arrival[1..] == [];
      assert rest[j] == [];
    } else {
      forall k | 0 <= k < |rest|
        ensures rest[k] == [] || rest[k][|rest[k]| - 1] == Worker.Done
      {
      }
      MergeEndsWithDone(arrival[1..], rest);
    }
  }

  lemma {:induction false} CountDoneOfLast(s: seq<Worker.Event>)
    requires s != [] && s[|s| - 1] == Worker.Done
    ensures Worker.CountDone(s) >= 1
  {
    if |s| > 1 {
      assert s[1..][|s[1..]| - 1] == Worker.Done;
      CountDoneOfLast(s[1..]);
    }
  }

  /** The event lists of the workers, one per URL, all scanning for the same words. */
  function WorkerStreams(urls: seq<string>, fetches: seq<Worker.Fetch>, words: seq<string>): (streams: seq<seq<Worker.Event>>)
    requires |fetches| == |urls|
    ensures |streams| == |urls|
    ensures forall i :: 0 <= i < |urls| ==> streams[i] == Worker.WorkerEvents(urls[i], fetches[i], words)
    ensures TotalDone(streams) == |urls|
  {
    var streams := seq(|urls|, i requires 0 <= i < |urls| => Worker.WorkerEvents(urls[i], fetches[i], words));
    OneSignalPerWorker(urls, fetches, words, streams);
    streams
  }

  /** With one worker per URL, each signalling once, the workers send one completion per URL in all. */
  lemma OneSignalPerWorker(urls: seq<string>, fetches: seq<Worker.Fetch>, words: seq<string>, streams: seq<seq<Worker.Event>>)
    requires |fetches| == |urls| && |streams| == |urls|
    requires forall i :: 0 <= i < |urls| ==> streams[i] == Worker.WorkerEvents(urls[i], fetches[i], words)
    ensures TotalDone(streams) == |urls|
  {
    forall j | 0 <= j < |streams|
      ensures Worker.CountDone(streams[j]) == 1
    {
      Worker.WorkerSignalsOnce(urls[j], fetches[j], words);
    }
    TotalDoneOfSingles(streams);
  }

  /** Some worker for URL `u` saw word `w` on its page. */
  ghost predicate Reported(urls: seq<string>, fetches: seq<Worker.Fetch>, words: seq<string>, u: string, w: string)
    requires |fetches| == |urls|
  {
    exists i :: 0 <= i < |urls| && urls[i] == u && Worker.Seen(fetches[i], words, w)
  }

  /**
   * While the events of all workers arrive in any interleaving, the completion count stays
   * below the number of workers until the very last event: the loop never stops early.
   */
  lemma {:induction false} NoEarlyStop(urls: seq<string>, fetches: seq<Worker.Fetch>, words: seq<string>, arrival: seq<Worker.Event>)
    requires |fetches| == |urls|
    requires Merge(arrival, WorkerStreams(urls, fetches, words))
    ensures forall k :: 0 <= k < |arrival| ==> Worker.CountDone(arrival[..k]) < |urls|
    ensures Worker.CountDone(arrival) == |urls|
  {
    var streams := WorkerStreams(urls, fetches, words);
    MergeCountDone(arrival, streams);
    if arrival != [] {
      MergeEndsWithDone(arrival, streams);
      forall k | 0 <= k < |arrival|
        ensures Worker.CountDone(arrival[..k]) < |urls|
      {
        PrefixMissesLastDone(arrival, k);
      }
    }
  }

  /** A proper prefix of a list that ends with a completion signal misses at least that signal. */
  lemma PrefixMissesLastDone(evs: seq<Worker.Event>, k: nat)
    requires k < |evs| && evs[|evs| - 1] == Worker.Done
    ensures Worker.CountDone(evs[..k]) < Worker.CountDone(evs)
  {
    var before, after := evs[..k], evs[k..];
    assert evs == before + after;
    assert after[|after| - 1] == Worker.Done;
    Worker.CountDoneAppend(before, after);
    CountDoneOfLast(after);
  }

  /** A match arrives exactly when some worker for its URL saw its word. */
  lemma ArrivedIffReported(urls: seq<string>, fetches: seq<Worker.Fetch>, words: seq<string>,
                           arrival: seq<Worker.Event>, u: string, w: string)
    requires |fetches| == |urls|
    requires Merge(arrival, WorkerStreams(urls, fetches, words))
    ensures Worker.Match(w, u) in arrival <==> Reported(urls, fetches, words, u, w)
  {
    var streams := WorkerStreams(urls, fetches, words);
    MergeMembers(arrival, streams);
    if Worker.Match(w, u) in arrival {
      var j :| 0 <= j < |streams| && Worker.Match(w, u) in streams[j];
      assert urls[j] == u && Worker.Seen(fetches[j], words, w);
    }
    if Reported(urls, fetches, words, u, w) {
      var j :| 0 <= j < |urls| && urls[j] == u && Worker.Seen(fetches[j], words, w);
      assert Worker.Match(w, u) in streams[j];
    }
  }

  /** Receiving all events of all workers, in any interleaving, records exactly the words the workers saw. */
  lemma FinalWords(urls: seq<string>, fetches: seq<Worker.Fetch>, words: seq<string>, arrival: seq<Worker.Event>)
    requires |fetches| == |urls|
    requires Merge(arrival, WorkerStreams(urls, fetches, words))
    ensures forall u, w :: w in Lookup(Accumulate(map[], arrival), u) <==> Reported(urls, fetches, words, u, w)
    ensures forall u :: u in Accumulate(map[], arrival) <==> exists w :: Reported(urls, fetches, words, u, w)
  {
    AccumulateWords(map[], arrival);
    forall u, w
      ensures Worker.Match(w, u) in arrival <==> Reported(urls, fetches, words, u, w)
    {
      ArrivedIffReported(urls, fetches, words, arrival, u, w);
    }
  }

  /**
   * The whole run: one worker per URL (the fetch outcome of URL `i` is `fetches[i]`), the
   * events arriving in any interleaving, and the consuming loop. The loop consumes every
   * event and ends with one completion counted per URL, and the final result set lists, for
   * each URL, exactly the configured words seen as a substring of some scanned text of that
   * URL, each once.
   */
  method Start(urls: seq<string>, words: seq<string>, fetches: seq<Worker.Fetch>, arrival: seq<Worker.Event>)
    returns (results: ResultSet, consumed: nat, count: nat)
    requires |fetches| == |urls|
    requires Merge(arrival, WorkerStreams(urls, fetches, words))
    ensures consumed == |arrival| && count == |urls|
    ensures WellFormed(results)
    ensures forall u, w :: w in Lookup(results, u) <==> Reported(urls, fetches, words, u, w)
    ensures forall u :: u in results <==> exists w :: Reported(urls, fetches, words, u, w)
  {
    var collector := new Collector(|urls|);
    consumed := collector.Collect(arrival);
    results := collector.results;
    count := collector.c;
    NoEarlyStop(urls, fetches, words, arrival);
    assert consumed == |arrival|;
    assert arrival[..consumed] == arrival;
    FinalWords(urls, fetches, words, arrival);
  }
}
