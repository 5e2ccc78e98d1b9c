# Binance market scraper, modelled in Dafny

`scraper.py` runs a background thread that loads the Binance markets page in
a browser, extracts one record `{pair, price, change_24h}` per table row,
keeps the latest non-empty result in memory, and mirrors it to
`crypto_data.json` with an atomic write that keeps the previous version in
`crypto_data_backup.json`. A web endpoint `/latest` serves the in-memory
records. The thread survives browser failures: it discards the driver, saves
the last good snapshot again, and sleeps for an exponential back-off capped
at 30 seconds.

The model has six modules:

- `Wrappers` holds the `Option` type. It stands for `MAX_ROWS` and `backup_path`.
- `Text` holds Python's `str.isspace()` (by code point), `strip()`, `split(sep)` and `sep.join`.
- `Extract` holds `parse_market_from_html`, from the row texts onwards.
  - `ParseSpec` is the function that specifies it.
  - `ParseMarketFromHtml` is the loop itself, proved equal to `ParseSpec`.
- `Durable` holds `save_json_atomic` over a file system.
  - Named files map a path to their contents. Temporary files are an anonymous list.
  - Every step that can raise has a fault flag.
  - `Save` is the function that specifies it; `Disk.SaveJsonAtomic` is the imperative version.
- `Scrape` holds `scrape_loop`.
  - `Step` and `RunSpec` specify one iteration and a run.
  - Class `Scraper` holds the loop's variables, `latest_data` and the disk. Its methods (`RunIteration`, `ScrapeLoop`, `PollWait`, ...) are proved against those functions.
  - What the browser returns, which file operations fail and when the stop event fires come in as an `Iteration` value.
  - Sleeps are recorded in a list of delays.
- `Api` holds the `/latest` handler, taking the timestamp as a parameter.

Where the code and its documentation disagree, the model follows the code:

- `tempfile.mkstemp` (scraper.py:64) is called before the `try`, so its exception leaves `save_json_atomic`.
  - From the normal path (scraper.py:156, 164) it is caught by the loop's `except`: the driver is dropped and the back-off doubles, even after a good parse. In that case the back-off is not reset.
  - From the `except` block itself (scraper.py:191) nothing catches it and the scraper thread ends. The model's `Crashed` status stands for this.
  - The module docstring promises fault tolerance, but this one failure is not tolerated.
- A negative `MAX_ROWS` counts as truthy and every length is at least it, so the loop stops after the first row. `MAX_ROWS = 0` counts as falsy and means no cap. The shipped value is `None`.

## Model

| member | source | states |
|---|---|---|
| Text.IsSpace | scraper.py:114-115 | The whitespace that `strip()` removes: Python's `str.isspace()` code points (tab to carriage return, the four separators 28-31, space, next line, no-break space, and the Unicode space, line and paragraph separators). |
| Text.Strip | scraper.py:114-115 | `strip()`: the text with whitespace removed from both ends. It is specified by `StripSpec`. |
| Text.Split | scraper.py:115 | `split("\n")`: it always gives at least one piece. `SplitSpec` gives the rest. |
| Text.Join | scraper.py:114 | The row text that `get_text(separator="\n")` builds from its text chunks. `SplitJoin` shows that `split` undoes it. |
| Text.StripSpec | scraper.py:114-115 | `strip()` gives the slice of the text with all whitespace removed from both ends. That slice neither starts nor ends with whitespace, and it is empty exactly when the text is all whitespace. |
| Text.SplitSpec | scraper.py:115 | No piece of `split("\n")` holds a line break, and joining the pieces with line breaks gives the text back. |
| Text.SplitJoin | scraper.py:115 | `split` undoes `join` for at least one piece when no piece holds the separator. |
| Text.StripCons | scraper.py:114-115 | A leading whitespace character does not change `strip()`. |
| Text.StripSnoc | scraper.py:114-115 | A trailing whitespace character does not change `strip()`. |
| Text.SplitSnocSep | scraper.py:115 | Appending the separator adds one empty last piece. |
| Text.SplitSnocOther | scraper.py:115 | Appending any other character extends the last piece. |
| Extract.NonBlankStripped | scraper.py:115 | The comprehension keeps each piece stripped and drops pieces that strip to nothing, so it never gives more parts than pieces. |
| Extract.Parts | scraper.py:114-115 | The parts of a row: strip the row text, split it on line breaks, keep the non-blank pieces stripped. `PartsAreFields` and `OuterStripIrrelevant` describe them. |
| Extract.RowRecord | scraper.py:116-120 | A row with at least three parts gives the record of its first three parts. `RowOfChunks` and `LaterLinesIgnored` describe it. |
| Extract.Capped | scraper.py:121 | Python truthiness of `MAX_ROWS`: `None` and `0` are false, every other integer is true. |
| Extract.ParseSpec | scraper.py:104-123 | What `parse_market_from_html` returns, given the row texts. It is specified by `ParseSpecShape`, and the loop is proved equal to it. |
| Extract.PartsAreFields | scraper.py:114-115 | Every part of a row is non-empty, has no whitespace at either end and holds no line break. |
| Extract.RowRecordsWellFormed | scraper.py:113-120 | Every record built has three such fields. |
| Extract.OuterStripIrrelevant | scraper.py:114-115 | The outer `strip()` does not change the parts: they are the non-blank stripped lines of the raw text. |
| Extract.LeadingSpacesIgnored | scraper.py:114-115 | Whitespace, line breaks included, in front of a row's text does not change its parts. |
| Extract.TrailingSpacesIgnored | scraper.py:114-115 | Whitespace after a row's text does not change its parts. |
| Extract.PartsConcat | scraper.py:114-115 | The parts of two texts joined by a line break are the parts of the first followed by those of the second. |
| Extract.RowOfChunks | scraper.py:114-120 | For a row whose text is its text chunks joined by line breaks, where no chunk itself contains a line break, the record is the first three non-blank chunks, stripped. A row with fewer such chunks gives no record. |
| Extract.LaterLinesIgnored | scraper.py:116-120 | Once a row has three parts, anything on later lines does not change its record. |
| Extract.RecordsFromRows | scraper.py:113-120 | Each record comes from one accepted row, in strictly increasing row order, and every row that yields a record is represented. |
| Extract.ParseSpecShape | scraper.py:104-123 | The result is a prefix of the records of all rows, so it keeps their order. It is no longer than the rows. It is all records when `MAX_ROWS` is falsy, and `min(MAX_ROWS, records)` of them for a positive `MAX_ROWS`. A negative `MAX_ROWS` looks only at the first row. Every record is well formed. |
| Extract.ParseMarketFromHtml | scraper.py:104-123 | The loop with its early `break` returns exactly `ParseSpec`. |
| Extract.ParseStopsAt | scraper.py:121-122 | When a row first brings the count up to `MAX_ROWS`, the records found so far are the whole result. |
| Extract.ParseRunsOut | scraper.py:113-123 | A loop that goes through every row returns the records of all rows. |
| Extract.RowRecordsSnoc | scraper.py:114-120 | One more row adds the record of its first three parts, if it has three, at the end. |
| Extract.RowRecordsAppend | scraper.py:113-120 | The records of two row lists are the records of the first followed by those of the second. |
| Durable.BackupWanted | scraper.py:70 | A backup is attempted only when the backup path is given and non-empty and the primary exists. |
| Durable.CopyFile | scraper.py:71-74 | `shutil.copy2` with its exception swallowed: the backup gets the primary's contents, stays as it was, or is left torn. Copying a file onto itself raises and changes nothing. |
| Durable.BackupStep | scraper.py:70-74 | The backup step: a copy exactly when `BackupWanted` holds. |
| Durable.Save | scraper.py:55-82 | The effect of one `save_json_atomic` call under a given set of faults. It is specified by `SaveSpec`, and `Disk.SaveJsonAtomic` is proved equal to it. |
| Durable.SaveSpec | scraper.py:55-82 | Empty data changes nothing. Only a failing `mkstemp` raises to the caller, and then nothing changes. If the replace is reached and succeeds, the primary holds exactly the new data; otherwise it is unchanged. If the copy succeeds, the backup holds the old primary. The backup is touched only once the temporary file is complete and a primary exists. A temporary file is left only when its removal fails. No other file changes. |
| Durable.Disk.SaveJsonAtomic | scraper.py:55-82 | The step-by-step save, including the swallowed exceptions, has exactly the effect `Save` describes. |
| Durable.SaveKeepsPrimaryValid | scraper.py:55-82 | Whatever fails, a primary that is a complete non-empty snapshot stays one. |
| Durable.BackupFailureDoesNotBlockReplace | scraper.py:70-75 | However the backup copy fails, the primary ends up the same. |
| Durable.BackupHoldsPreviousSnapshot | scraper.py:70-75 | After two successful saves, the primary holds the second data and the backup the first. |
| Scrape.Scraper.PollWait | scraper.py:170-173 | The poll wait sleeps 20 ticks of 0.1 s, or fewer if the stop event is seen first. |
| Scrape.Scraper.HandleError | scraper.py:175-195 | The `except` block has the effect `Recover` describes. |
| Scrape.Scraper.Start | scraper.py:140-149 | Getting a driver has the effect `Started` describes. |
| Scrape.Scraper.ConsumePage | scraper.py:149-173 | Publishing, saving and polling after a parse have the effect `PageStep` describes. |
| Scrape.Scraper.RunIteration | scraper.py:138-195 | One pass of the loop body has the effect `Step` describes. |
| Scrape.Scraper.ScrapeLoop | scraper.py:128-203 | The loop, and the driver quit after it, has the effect of `RunSpec` and then `Shutdown`. |
| Scrape.Scraper.constructor | scraper.py:134-135 | The thread starts with no driver, back-off 1 and no data. |
| Scrape.PollLength | scraper.py:170-173 | How many 0.1 s ticks the poll wait sleeps: all 20, or the tick at which the stop event is first seen, whichever is fewer. |
| Scrape.Started | scraper.py:139-148 | Without a driver, `create_driver` is called once, and the load sleep follows when the page loads. With a driver, nothing changes. |
| Scrape.PageStep | scraper.py:153-173 | After a parse: publish a non-empty result, save whatever snapshot there is, reset the back-off after a saved non-empty parse, then wait for the poll. An escaping `mkstemp` exception goes to `Recover`. |
| Scrape.Recover | scraper.py:175-195 | The `except` block: drop the driver, save the snapshot again, end the thread if that save raises, otherwise sleep `min(backoff, 30)` and double the back-off. |
| Scrape.Step | scraper.py:138-195 | One pass of the loop body: `Started`, then `PageStep` on the parsed rows, or `Recover` when the browser fails. `StepOutcome` states its outcome. |
| Scrape.RunSpec | scraper.py:137-195 | The loop over a script of iterations, while the status is running. |
| Scrape.Shutdown | scraper.py:198-202 | After the loop leaves through the stop event, the driver is quit. |
| Scrape.StepOutcome | scraper.py:138-195 | One iteration ends with these outcomes. `latest_data` becomes the parse when that is non-empty and stays as it was otherwise. The thread ends exactly when the `except` block's own save raises. It stops exactly at the stop event otherwise. A driver is created exactly when none was held, and none is held after an exception. The back-off resets to 1 after a saved non-empty parse, stays after an empty one, and doubles after an exception, with a sleep of `min(backoff, 30)`. Without an exception the disk is what saving the new `latest_data` makes of it. So an empty parse only saves the existing snapshot again. After an exception that does not end the thread, the disk is what the `except` block's save of `latest_data` makes of it. |
| Scrape.SavedPageIsPrimary | scraper.py:153-156 | A page that yields records, saved without a fault, leaves the primary JSON file holding exactly those records. |
| Scrape.RunNoRegress | scraper.py:149-166 | Once `latest_data` is non-empty it stays non-empty for the rest of any run. |
| Scrape.FreshDriverOnlyAfterError | scraper.py:137-186 | The next iteration creates a new driver exactly when this one raised; otherwise it reuses the driver. |
| Scrape.FailureStep | scraper.py:175-195 | A failed iteration sleeps `min(backoff, 30)` and doubles the back-off. It fails when the browser fails, or when `mkstemp` raises while the page's own records are saved. |
| Scrape.FailureStreak | scraper.py:175-195 | `k` consecutive failures from back-off `b` sleep `min(b·2^i, 30)` for each `i < k` and leave the back-off at `b·2^k`. |
| Scrape.ScheduleAt | scraper.py:193-194 | The `i`-th sleep of that schedule is `min(b·2^i, 30)`. |
| Scrape.ScheduleFromOne | scraper.py:193-194 | From the initial back-off the sleeps are 1, 2, 4, 8, 16 and then 30 forever: never above 30 and never shorter than the one before. |
| Scrape.RunKeepsBackoffPow2 | scraper.py:135-194 | The back-off is always a power of two. |
| Scrape.StepKeepsPrimaryValid | scraper.py:152-191 | No iteration leaves the primary JSON file partial or empty. |
| Scrape.RunKeepsPrimaryValid | scraper.py:128-195 | No run leaves the primary JSON file partial or empty. |
| Api.GetLatest | scraper.py:259-268 | The endpoint answers 503 with `"No data yet"` exactly when there is no data. Otherwise it answers 200 with the records, `count` equal to their number, and the request time. |
| Api.ServedOnceScraped | scraper.py:259-268 | Once the scraper has published data, the endpoint never answers 503 again. |
| Api.ServesLatestParse | scraper.py:259-268 | After a page that yields records, the endpoint serves exactly those records. After any other iteration it answers as before. |

## Left out

- Selenium and BeautifulSoup are outside the model. That covers `create_driver`, `driver.get`, `page_source`, `execute_script`, `quit`, HTML parsing and the CSS selection. The model starts from the text `get_text(separator="\n")` returns for each selected row. A browser failure is one `Iteration.fetch` value.
- JSON serialisation and the `indent` format are treated as injective. A complete file is represented by the records it holds, and a torn write by `Partial`.
- Temporary file names and directories (`os.path.dirname`, `abspath`) are not modelled. Temporary files are anonymous.
- Time is not modelled. `time.sleep` calls are recorded as `Delay` values, and the `strftime` timestamp is a parameter of `GetLatest`.
- Threads, `latest_data_lock`, signal handlers and Flask routing are not modelled. The scraper and the endpoint are related through the `latest` value they share.
- Console output (`print`) is not modelled.
- `update_data_loop` and `get_html_page` are outside the core. So are `/health`, the unreachable second `return` of `get_latest` and the `__main__` start-up code.
- `backoff` is a Python float. It is modelled as an unbounded natural number. Its eventual overflow to infinity after about a thousand doublings would not change `min(backoff, 30)`.
- Scrape.FailureStreak: a streak counts an iteration whose `mkstemp` fails only when the page's own parse is non-empty. An empty parse whose save of older data raises in the same way is not covered, since whether it raises depends on data published in earlier iterations.
- Scrape.Scraper.ScrapeLoop: a run is bounded by a finite script of iterations. The unbounded `while not stop_event.is_set()` loop is the limit of such runs.
