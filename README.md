# Verified model of the Lambda word scraper

The scraper takes a comma-separated list of URLs and a comma-separated list of words. It starts
one goroutine per URL. Each goroutine fetches its page, walks the HTML tokens, and for every
text token sends a `FoundWord{word, url}` for each configured word the text contains. It always
sends one completion signal when it finishes, including after a fetch error. A single loop in
`start` receives both kinds of event in whatever order they arrive. It appends a word to the
URL's list unless the list already holds it, counts completion signals, and stops when the
count reaches the number of URLs. A separate function builds the text body of the results email.

This project models that sequential logic:

- `Strings`: Go's `strings.Contains`, specified as "there is an index where the word occurs".
- `Scanner`: the words found in one text token.
- `Worker`: the events one worker sends. The fetch is an input (`FetchError` or `Page`). The
  tokenizer output is a sequence of tokens, and the two channels become one ordered event list
  (`Match(word, url)`, then `Done`). `Scrape`, `ScanTokens` and `ScanText` are the loops.
- `Coordinator`: the `contains` helper; the result-set update as a function (`Record`,
  `Accumulate`); the `Collector` class holding the map `results` and the counter `c`, with
  one method per loop turn and one for the loop; and `Start`. `Start` takes the arrival
  order as any interleaving (`Merge`) of the workers' event lists. It proves that the loop
  consumes every event, ends with one completion counted per URL, and that the final map holds, for each URL, exactly the configured words
  found on that URL's page, each once.
- `Notifier`: the body of the results email.

Behaviour of the code that the model keeps on purpose:

- An empty word is accepted (it comes from an empty comma-split entry) and is found in every
  text token.
- The words of a URL are a list in arrival order, not a set. Only the set of words is
  independent of arrival order (`ArrivalOrderIrrelevant`).
- A URL gets a map entry only when its first match arrives. A URL none of whose workers saw a
  word has no entry.

## Model

| member | source | states |
|---|---|---|
| `Strings.Contains` | lambda_scraper.go:50 | true exactly when the word occurs at some index of the text (case-sensitive, no normalisation); the empty word is always contained |
| `Scanner.FoundIn` | lambda_scraper.go:49-54 | one text token yields at most one found word per configured word |
| `Scanner.FoundInMembers` | lambda_scraper.go:49-54 | the words found in one text token are exactly the configured words that are substrings of it |
| `Scanner.FoundInCounts` | lambda_scraper.go:49-54 | a configured word is found as many times as it is configured when it occurs in the text, and never otherwise |
| `Scanner.FoundInAppend` | lambda_scraper.go:49 | the found words keep the order of the configured words (scanning a concatenation concatenates the scans) |
| `Scanner.FoundInSingle` | lambda_scraper.go:50-53 | one word is emitted exactly when it is a substring; an empty word is always emitted |
| `Worker.TextsRead` | lambda_scraper.go:38-47 | the token loop scans at most one text per token |
| `Worker.TextsReadMembers` | lambda_scraper.go:38-47 | a text is scanned exactly when it is the data of a text token with no error token before it: every text token before the first error token is scanned, and nothing after it is |
| `Worker.ScanEvents` | lambda_scraper.go:38-56 | every event the scan sends is a match carrying the worker's own URL |
| `Worker.ScanEventsMembers` | lambda_scraper.go:38-56 | scanning sends only matches for the worker's own URL, and sends a match for a word exactly when the word is configured and some scanned text contains it |
| `Worker.WorkerEvents` | lambda_scraper.go:17-57 | a worker sends matches for its own URL only, then exactly one completion signal as the last event; after a fetch error it sends only the completion signal; a match (w, u) is sent exactly when u is its URL and the page yielded w |
| `Worker.WorkerSignalsOnce` | lambda_scraper.go:20-23 | every worker sends exactly one completion signal, whichever path it takes |
| `Worker.MatchEvents` | lambda_scraper.go:50-53 | the events sent for the found words of one text carry no completion signal |
| `Worker.ScanText` | lambda_scraper.go:49-54 | the inner loop sends one match per found word, in the order of the configured words |
| `Worker.ScanTokens` | lambda_scraper.go:38-56 | the token loop sends the matches of every text token up to the first error token, and stops there |
| `Worker.Scrape` | lambda_scraper.go:17-57 | the goroutine body sends exactly the worker's event list: the scan's matches (none on a fetch error), then the deferred completion signal |
| `Coordinator.Contains` | lambda_scraper.go:198-205 | true exactly when some element of the list equals the word; false for an empty list |
| `Coordinator.Lookup` | lambda_scraper.go:174-175 | a URL without an entry reads as the empty list, as a Go map read of a missing key does; in a well-formed result set the list read is empty exactly when the URL has no entry, and never holds a word twice |
| `Coordinator.Record` | lambda_scraper.go:172-179 | a completion signal leaves the map unchanged; a match whose word is already listed leaves it unchanged; otherwise the word is appended at the end of its URL's list and every other URL is untouched; a match adds its URL to the keys; no list ever holds a word twice or is empty |
| `Coordinator.RecordWords` | lambda_scraper.go:173-176 | after an event a URL lists a word exactly when it listed it before or the event is the match of that word for that URL |
| `Coordinator.RecordIdempotent` | lambda_scraper.go:174-176 | receiving the same match twice has the same effect as receiving it once |
| `Coordinator.Accumulate` | lambda_scraper.go:171-180 | any sequence of received events keeps every list free of duplicates and non-empty |
| `Coordinator.AccumulateWords` | lambda_scraper.go:171-180 | after any events, a URL lists exactly the words it had plus those of the matches received for it, and has an entry exactly when it had one or received a match |
| `Coordinator.ArrivalOrderIrrelevant` | lambda_scraper.go:171-180 | two arrival orders of the same events give the same URLs and the same words per URL |
| `Coordinator.Collector.constructor` | lambda_scraper.go:159-171 | the loop starts with the empty map made at line 159 and the zero counter set at line 171 |
| `Coordinator.Collector.Receive` | lambda_scraper.go:172-179 | one turn of the select: the map becomes `Record` of the event, and the counter grows by one exactly on a completion signal |
| `Coordinator.Collector.Collect` | lambda_scraper.go:171-180 | the loop consumes events until the counter equals the number of URLs: it never consumes an event after that point and stops only there (or when the events run out), with the map and counter equal to the effect of the events consumed |
| `Coordinator.Merge` | lambda_scraper.go:171-173 | an arrival order built by taking, one at a time, the next event of some worker has exactly as many events as all workers sent together |
| `Coordinator.MergeStep` | lambda_scraper.go:172 | one receive takes the next event of one worker; the events left to arrive are as many as the workers have left to send |
| `Coordinator.MergeCountDone` | lambda_scraper.go:162-168 | an interleaving of the worker event lists carries exactly the completion signals of all workers |
| `Coordinator.MergeMembers` | lambda_scraper.go:162-168 | an interleaving holds exactly the events of the worker event lists |
| `Coordinator.MergeEndsWithDone` | lambda_scraper.go:20-23 | since every worker's last event is its completion signal, so is the last event of any interleaving |
| `Coordinator.WorkerStreams` | lambda_scraper.go:166-168 | one worker per URL, in URL order, and the workers together send exactly one completion signal per URL |
| `Coordinator.OneSignalPerWorker` | lambda_scraper.go:166-168 | when each URL's list is its worker's events, the lists carry as many completion signals as there are URLs |
| `Coordinator.NoEarlyStop` | lambda_scraper.go:171 | while all workers' events arrive in any interleaving, the completion count stays below the number of URLs until the last event, and all events together carry one completion per URL, so the loop stops exactly after the last event |
| `Coordinator.ArrivedIffReported` | lambda_scraper.go:166-168 | a match (w, u) arrives exactly when some worker for URL u saw word w on its page |
| `Coordinator.FinalWords` | lambda_scraper.go:171-180 | receiving all workers' events records, for each URL, exactly the words its workers saw, and gives an entry only to URLs with such a word |
| `Coordinator.Start` | lambda_scraper.go:153-180 | for any arrival order the loop consumes every event and ends with the counter equal to the number of URLs; the result lists for each URL exactly the configured words seen in a scanned text of that URL, each once; a URL none of whose workers saw a word has no entry |
| `Notifier.BulletsAppend` | lambda_scraper.go:72-74 | the bullets of a concatenated word list are the bullets of each part in order |
| `Notifier.BulletAt` | lambda_scraper.go:72-74 | the bullet of the i-th word sits between the bullets of the words before and after it |
| `Notifier.ResultsBody` | lambda_scraper.go:70-74 | the body is `"Words found on " + url + "\n"` followed by `"\n - " + w` for each word in list order |
| `Notifier.BulletInBody` | lambda_scraper.go:72-74 | the bullet line of the i-th word appears in the body |
| `Notifier.BodyListsEveryWord` | lambda_scraper.go:70-74 | the body contains the header and a bullet line for every word |
| `Notifier.BodyLength` | lambda_scraper.go:70-74 | the body is 16 characters plus the URL plus, per word, the word and four characters |

## Left out

- `http.Get`, `resp.Body` and `body.Close` (lambda_scraper.go:18, 33-34): network I/O. The fetch outcome is a `Fetch` value given as input.
- `html.NewTokenizer`, `z.Next` and `z.Token` (lambda_scraper.go:36-46): an external library. Its output is a sequence of `Token`s. Running out of tokens counts as the error token the tokenizer returns at the end of the page.
- Goroutines, the two channels, `select` and `close(chUrls)` (lambda_scraper.go:161-173, 195): the fan-out is modelled by one event list per worker. The fan-in is any interleaving of those lists, which `Start` takes as input. The interleaving keeps each worker's own order because both channels are unbuffered (lambda_scraper.go:162-163): each send of a worker completes only when the loop receives it, so its completion signal is received after all its matches. `NoEarlyStop`, and with it the fact that the loop consumes every event, rests on this order. Blocking is not modelled: when the events run out before the last completion signal, `Collect` returns, where the real loop would wait forever.
- `Coordinator.Collector.Receive`: requires the counter to be below the number of URLs, because the source runs a loop turn only under that guard.
- `notifyError` (lambda_scraper.go:29, 59-65) and the two error prints: a side effect on the error path. The model records only that the error path sends no match before the completion signal. It does not record the error email.
- `sendEmail` (lambda_scraper.go:80-145): the email service, its session, environment variables and error-code printing.
- The email subject (lambda_scraper.go:69): integer formatting inside `fmt.Sprintf`. Only the body is modelled.
- `strings.Split` of the event fields (lambda_scraper.go:157-158): the URL and word lists are taken as already-split sequences, and empty entries are allowed.
- The final print and notify loop (lambda_scraper.go:183-193): Go map iteration order is unspecified and the loop only performs I/O.
- `lambda.Start` and `main` (lambda_scraper.go:212-214): the serverless entry point.
- Go's `int` counter `c` is unbounded here. It never exceeds the number of URLs.
- Go strings are byte strings; the model's strings are sequences of characters. `Contains` and string equality agree with Go only on valid UTF-8 input, and `BodyLength` counts characters where Go's `len` counts bytes.
