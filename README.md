# Company-info extractor: reply clean-up and table rows

This project models the deterministic part of a script that asks a language
model to pull company records (name, founding date, founders) out of an essay
and writes them to `company_info.csv`. Once the model has replied, the script

1. cleans the reply with `extract_json_string`: if the reply holds a Markdown
   block that opens with ```` ```json ```` and closes with ```` ``` ````, it keeps the
   inside of the block, otherwise the whole reply, and strips surrounding
   whitespace;
2. parses the result as JSON; a parse error gives an empty list of records;
3. walks the records with a 1-based index and, for each record that has all of
   `company_name`, `founding_date` and `founders`, emits the row
   `[index, name, date, str(founders)]`;
4. writes the header `S.N., Company Name, Founded in, Founded by` followed by
   those rows.

`json_fence.dfy` (module `JsonFence`) models step 1. The regular expression
```` ```json\s*(.*?)\s*``` ```` with DOTALL is modelled as the backtracking
search Python runs for it: each start position from the left, a greedy `\s*`
that gives characters back, a lazy group that grows one character at a time,
and a second greedy `\s*` before the closing ```` ``` ````. The lemmas then
characterise the outcome without the search. A block is found exactly when
some ```` ``` ```` starts at or after the end of an opener (`SearchIff`). The result is then
the stripped text between the leftmost opener and the first ```` ``` ```` after
it. In every case the result is a trimmed slice of the reply.

`company_table.dfy` (module `CompanyTable`) models steps 2-4. `BuildRows` is
the loop, proved against the function `Rows`. The lemmas about `Rows` say
which records get a row, what each row holds, and how serials are ordered.
`CompanyTableOf` chains the clean-up, the parse outcome, `BuildRows` and the
header. `options.dfy` holds the `Option` type.

Parameters stand in for what the model does not interpret:
- `parse: string -> Option<seq<Record<V>>>` is `json.loads`; `None` is the
  `JSONDecodeError` branch.
- `render: V -> string` is Python's `str` applied to the founders value.
- `V` is the type of JSON values.

Serials are the record's position in the parsed list, assigned before
filtering, so a dropped record leaves a gap in the numbering
(`SerialsHaveGaps`). The script itself does not normalise dates; the
`YYYY-MM-DD` shape is only asked of the language model in the prompt text.

## Model

| member | source | states |
|---|---|---|
| JsonFence.Strip | main.py:17-18 | `str.strip()`: the result is a slice of the input with only whitespace before and after it, and it neither begins nor ends with whitespace |
| JsonFence.StripUnique | main.py:17-18 | any string meeting that definition of stripping is the result of `Strip`, so the definition fixes the result |
| JsonFence.StripInner | main.py:15-17 | whitespace around a slice does not change what stripping it gives, so the two `\s*` around the group do not affect the stripped group |
| JsonFence.CloseFrom | main.py:15 | the trailing `\s*```` `: whatever closer position it reports lies in the tried range and really starts a ```` ``` ```` |
| JsonFence.LazyEnd | main.py:15 | the lazy group `(.*?)`: a reported group end is followed by whitespace only, up to a ```` ``` ```` |
| JsonFence.GroupFrom | main.py:15 | the leading `\s*` with give-back: the reported group starts after whitespace only and ends before whitespace and a ```` ``` ```` |
| JsonFence.MatchAt | main.py:15 | a match found at a start position is a genuine match of the whole pattern starting there |
| JsonFence.Search | main.py:15 | `re.search`: a reported match is a genuine match starting at or after the search position |
| JsonFence.SearchFinds | main.py:15 | when the leftmost opener is at `p` and a ```` ``` ```` follows it, the search reports the match starting at `p` and closing at the first ```` ``` ```` after the opener |
| JsonFence.SearchIff | main.py:15-16 | the search finds a block if and only if some ```` ``` ```` starts at or after the end of an opener |
| JsonFence.ExtractJsonString | main.py:14-18 | the result never begins or ends with whitespace and is always a contiguous slice of the input, in both branches |
| JsonFence.ExtractUnfenced | main.py:15-18 | with no opener followed by a ```` ``` ````, the result is the input stripped |
| JsonFence.ExtractUnclosed | main.py:15-18 | when no ```` ``` ```` follows the leftmost opener, the result is the input stripped |
| JsonFence.ExtractFenced | main.py:15-17 | with a block, the result is the stripped text between the end of the leftmost opener and the first ```` ``` ```` after it, across newlines |
| JsonFence.FenceCases | main.py:15-18 | every input falls under one of the two cases: either no opener is followed by a closer, or there is a leftmost opener with a first closer after it |
| CompanyTable.Rows | main.py:53-56 | the reference for the loop: every row's serial is a 1-based position in the record list |
| CompanyTable.BuildRows | main.py:52-60 | the loop over `enumerate(company_list, start=1)` returns exactly the rows `Rows` describes for the whole list |
| CompanyTable.RowsSound | main.py:53-60 | each row's serial is a 1-based position in the list whose record is complete; the row copies that record's name and date and renders its founders |
| CompanyTable.CompleteGetsRow | main.py:53-56 | a record with all three keys gets a row whose serial is its 1-based position |
| CompanyTable.RowEmittedIff | main.py:53-54 | a record gets a row if and only if it has all three keys; incomplete records are dropped |
| CompanyTable.RowsIncreasing | main.py:53-56 | rows keep input order: serials strictly increase along the rows |
| CompanyTable.RowsLength | main.py:52-60 | there are never more rows than parsed records |
| CompanyTable.SerialsHaveGaps | main.py:53-56 | of three records with the middle one lacking `founders`, the rows are numbered 1 and 3: a dropped record leaves a gap |
| CompanyTable.Header | main.py:65 | the header line has four cells, all text titles |
| CompanyTable.Line | main.py:55-60 | a data line has one cell per header column, the serial first |
| CompanyTable.Table | main.py:65-66 | the written lines: the header first, then exactly one line per row in order |
| CompanyTable.CompanyTableOf | main.py:42-66 | the written lines are the header followed by one line per row of `Companies`, its `company_list` (the parsed records, or the empty list on `JSONDecodeError`); never more lines than one plus the records; a parse failure gives the header alone |

## Left out

- The language-model client and its `invoke` call (main.py:11, 38): a network call with non-deterministic output. The reply is an input of `CompanyTableOf`.
- Loading the environment and importing the essay (main.py:5-10): configuration.
- The prompt text (main.py:21-35): a string with no logic.
- The inside of `json.loads` (main.py:45): a library parser, kept as the `parse` parameter. The parsed value is taken to be a list of JSON objects. A top-level object or scalar, and list items that are not objects, are not modelled. For those items Python's `k in item` would test list membership or substrings, or raise `TypeError`.
- Python's `str` of the founders value (main.py:59): a library formatting routine, kept as the `render` parameter.
- The CSV writer and the file it overwrites (main.py:63-66): I/O. The model gives the lines that would be written, as cells, without CSV quoting or text conversion.
- The `print` diagnostics (main.py:47-48, 68): console output.
- Whitespace: `\s` and `str.strip()` both use Python's `str.isspace` test, which also accepts the ASCII separators `\x1c`-`\x1f` and the non-ASCII spaces. The model's `IsSpace` keeps only the six characters space, `\t`, `\n`, `\r`, `\v` and `\f`, so text edged with those other characters is not stripped as Python would strip it.
