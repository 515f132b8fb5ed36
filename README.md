# Event status checker — a verified model of its decision logic

The program reads `urls.csv`, which must have a header row with `name` and
`url` columns. It counts the file's lines to get a record total. For each
record it fetches the page at the URL and asks a chat-completion model
whether the event is accepting applications. It then prints one line per
record: a classification or a skip. Any other failure stops the whole
process through `log.Fatalf`.

This project models the decision logic of `index.go` that sits between
those I/O calls. The network, the CSV parser and the file system are
inputs. Every `log.Fatalf` becomes an `Aborted` run that keeps the lines
printed before it.

Modules:

- `Text` (`text.dfy`): `strings.TrimSpace` over decoded characters, with
  Go's `unicode.IsSpace` set written out.
- `RecordSource` (`record_source.dfy`): `lineCounter` as the number of
  newline bytes, and `findIndex` as a loop with an early return. The loop is
  proved against a first-match function. A CSV row is a list of fields or a
  read error. A row is readable only when it has the header's width, which
  is `encoding/csv`'s default field-count rule.
- `Reporter` (`reporter.dfy`): `displayProgress` as a value. The value is
  the "invalid progress" message, or a truncated percentage plus a spinner
  glyph.
- `Classifier` (`classifier.dfy`): the prompt and the request `queryModel`
  builds, the trimmed answer, and the three-way classification.
- `Driver` (`driver.dfy`):
  - `processEachRecord` as a method with a loop. It is proved equal to a
    recursive definition over the records, where each record is paired
    with its fetch outcome and the model's reply.
  - `processRecords` as a method that validates the file, adjusts the total
    in place and runs the loop. It is proved equal to a pipeline function.

## Behaviour of the code worth noting

- The credential is not checked at start-up. `main` only loads `.env`, and
  `postData` looks the API key up when it is called. That first happens at
  the first record whose page was fetched. A missing key is one of the
  reasons a reply fails, so the lines of the records before it are already
  printed.
- The "no records" check is `count <= 1` on the newline count, made before
  one is subtracted. The loop therefore always gets a total of at least
  one (`ValidationGate`).
- The record total is the number of newline bytes minus one, not the number
  of data rows. A file whose last line has no newline gets a total one lower
  than its record count. One data row without a final newline stops the run
  as "no records" (`UnterminatedRecordIsLost`). Two rows push the progress
  to 200% (`PercentOverflowExample`).
- The progress line of a record is printed before its page is fetched, and
  the permanent line after.

## Model

| member | source | states |
|---|---|---|
| Text.TrimLeft | index.go:235 | the result is the suffix of the input reached by dropping only white space, and it does not start with white space |
| Text.TrimRight | index.go:235 | the result is the prefix of the input left by dropping only white space, and it does not end with white space |
| Text.TrimSpace | index.go:124-126 | the trimmed text is no longer than the input, neither starts nor ends with white space, and sits in the input with only white space before and after it |
| Text.TrimSpaceOfPadded | index.go:124-126 | any white space around a text that is not padded itself is removed, and exactly that text remains |
| Text.TrimSpaceIdempotent | index.go:235 | trimming the answer postData already trimmed changes nothing |
| RecordSource.CountNewlines | index.go:164-170 | lineCounter's result is the number of newline bytes in the contents, and is at most their length |
| RecordSource.CountTerminated | index.go:169 | lines each ending in a newline, followed by a last line without one, count as exactly the terminated lines |
| RecordSource.FirstIndex | index.go:172-179 | -1 exactly when no header equals the column; otherwise an index in range whose header equals the column, case-sensitively, with no earlier match |
| RecordSource.FindIndex | index.go:172-179 | the loop with early return yields the first matching index, or -1 when nothing matches |
| Reporter.QuotientIsFloor | index.go:142 | the truncated quotient q of n by d > 0 satisfies q*d <= n < (q+1)*d |
| Reporter.QuotientIsDivision | index.go:142 | the truncated quotient equals integer division for a non-negative dividend and a positive divisor |
| Reporter.Percent | index.go:142 | the percentage p is the truncated quotient of current*100 by the total: p*total <= current*100 < p*total + total |
| Reporter.SpinnerIndex | index.go:141 | for current >= 1 the index lies in [0, 4) and is congruent to current - 1 modulo 4 |
| Reporter.DisplayProgress | index.go:136-143 | the invalid-progress message appears exactly when total <= 0; otherwise the percentage is (current*100)/total and the glyph is spinner[(current-1) mod 4] |
| Reporter.PercentInRange | index.go:142 | for 1 <= current <= total the percentage lies in [0, 100], and it is 100 exactly at the last record |
| Reporter.PercentMonotone | index.go:142 | the percentage never decreases as the count grows |
| Reporter.PercentAbove100 | index.go:142 | the percentage exceeds 100 exactly when current*100 >= 101*total |
| Reporter.SpinnerCycles | index.go:141 | the spinner advances one glyph per record and repeats after four records |
| Reporter.SpinnerOrder | index.go:136-143 | with a total of 4, records 1 to 5 show 25% with the first glyph, 50% with the second, 75% with the third, 100% with the fourth and 125% with the first again |
| Classifier.Prompt | index.go:146 | the prompt is the fixed instruction followed by the whole page content, so the content is its suffix |
| Classifier.BuildRequest | index.go:148-154 | the request names model gpt-4o-mini, max tokens 5 and n 1, and carries one user message whose text is exactly the prompt for the page |
| Classifier.RequestCarriesPage | index.go:146-154 | the page content is recovered unchanged from the request built for it |
| Classifier.RequestInjective | index.go:146-154 | two pages give the same request only when they are the same page |
| Classifier.QueryModel | index.go:145-162 | queryModel answers exactly when postData got a reply; the answer is the first choice's content with surrounding white space trimmed, and a failed reply carries postData's reason |
| Classifier.Classify | index.go:124-130 | accepting exactly when the trimmed answer is "yes", not accepting exactly when it is "no", undetermined exactly otherwise |
| Classifier.ClassifyIgnoresPadding | index.go:124-130 | "yes" or "no" with any white space around it is still recognised |
| Classifier.ClassifyTrimmed | index.go:122-126 | classifying postData's trimmed answer gives the verdict of the raw content |
| Classifier.ClassifyPaddedYes | index.go:124-125 | " yes\n" is classified as accepting |
| Classifier.ClassifyCaseSensitive | index.go:124-130 | "Yes" is not recognised: the comparison is case-sensitive |
| Classifier.ClassifyEmpty | index.go:124-130 | an empty answer is undetermined |
| Driver.HandleRecord | index.go:102-130 | a record stops the run exactly when it is unreadable, or when its page was fetched and the query failed. An unreadable record prints nothing. A readable one first prints the progress for its count. A record that lets the loop go on prints exactly two lines: after a failed fetch, a skip with the record's URL and the fetch error; after a reply, the record's name with the verdict of the reply |
| Driver.AbortIsFinal | index.go:106-107 | once a record stops the run, later records change nothing |
| Driver.EachRecord | index.go:97-134 | "Processing complete." is printed exactly once, as the last line, when no record stops the run, and never when one does |
| Driver.ProcessEachRecord | index.go:97-134 | the loop, with its counter and its `continue` on a failed fetch, produces exactly the run the record-by-record definition `EachRecord` gives |
| Driver.FinishedShape | index.go:101-131 | a finished loop prints two lines per record. Record k is readable and handled with count k + 1, so the counter rises by one per record read, whatever the fetch did |
| Driver.OneLinePerRecord | index.go:101-133 | a finished run prints exactly one permanent line per record, and "Processing complete." once, as its last line |
| Driver.FetchFailureSkips | index.go:116-120 | a failed fetch adds the record's progress and a skip line naming its URL and the error, and the loop goes on |
| Driver.ModelFailureHalts | index.go:116-122 | a failed query stops the whole run at that record, with the record's progress as the last line and no later record read |
| Driver.ProcessRecords | index.go:61-95 | the checks in source order, the in-place adjustment of the total, and the loop together produce exactly the pipeline's run |
| Driver.Pipeline | index.go:61-95 | a file that fails any check aborts before any record is read, printing nothing, and never for a record or query failure |
| Driver.ValidationGate | index.go:61-95 | a file that passes every check reaches the loop with the first name and url positions and a total of at least one |
| Driver.MissingColumnStopsEarly | index.go:83-91 | a missing name or url column aborts with nothing printed, and the name column is reported first |
| Driver.UnterminatedRecordIsLost | index.go:68-75 | a header line and one record line without a final newline abort as "no records" |
| Driver.HeaderOnlyHasNoRecords | index.go:73-75 | a file holding only the header line, with or without its newline, aborts as "no records" |
| Driver.GoodAndBadExample | index.go:101-133 | under header name,url, a fetched EventA and an unreachable EventB print 50% progress, EventA's classification, 100% progress, a skip naming the bad URL, then the completion line |
| Driver.PercentOverflowExample | index.go:93-111 | two records after the header with no final newline give a total of 1, so the second record's progress reads 200% |

## Left out

- fetchPageContent (index.go:181-198): the HTTP GET is not modelled. Each record carries its outcome as an input, either the page text or an error message.
- postData (index.go:200-236): the environment lookup and the HTTP POST are not modelled, and neither are the response decoding and the first-choice selection. Each record carries the reply as an input: the first choice's content, or a failure. The failure covers a missing API key, a transport error, a non-200 status, an undecodable body and an empty choice list, and it is fatal.
- json.Marshal (index.go:156-159): the request is a value, not its JSON encoding. Encoding a struct of strings, integers and a float cannot fail, so that fatal path is not modelled.
- Temperature (index.go:22, index.go:152): the float field is not modelled. Its value 0 is dropped from the JSON by `omitempty` anyway.
- main (index.go:52-59): loading `.env` through godotenv is not modelled. Its failure would stop the program before the file is opened.
- os.Open and os.ReadFile: the file is an input that says whether it opens and what reading it whole gives, or that the read failed. Closing the file is not modelled.
- encoding/csv: quoting, multi-line fields and the parse itself are not modelled. The header and the rows are inputs, independent of the bytes counted for the total. The reader's field-count rule is modelled by `Readable`.
- Classifier.QueryModel: the reply is an input of the record, not the endpoint's answer to `BuildRequest` of the page, so the model does not state that the request queryModel sends is the one built from `pageContent`.
- Text.TrimSpace: works on decoded characters. It does not model Go's byte-level handling of invalid UTF-8, and it uses the fixed `IsSpace` set rather than a Unicode table.
- DisplayProgress: does not model the 64-bit overflow of `current * 100` or of the record counter. Integers are unbounded here.
- Reporter.Quotient: models Go's truncating `/` only for a non-negative dividend and a positive divisor, the only operands `displayProgress` can receive.
- Output formatting: the terminal escapes, `fmt.Printf` and the exact message texts are not modelled. Each printed line is a tagged value that carries the name, URL, error message or progress it shows.
