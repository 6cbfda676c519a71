# Segment merge policies of a full-text indexing benchmark, in Dafny

The benchmark indexes a data set of person records into a full-text index and
reports how many segment files a run leaves behind. The driver defines eight
runs, A to H: each merge policy, with one final commit or a commit after every
document, and with or without waiting for the merge threads. `main` calls only
run A (src/bin/indexer.rs:129-130); the calls to the other seven are commented
out. This project models the sequential core of the benchmark and proves
properties of it:

- **The two merge policies** (`merge_policy.dfy`, module `MergePolicy`). The
  index engine hands each policy an ordered snapshot of segments, each an id
  and a document count. The policy answers with merge candidates, each a list
  of segment ids.
  - *Merge whenever possible* proposes one candidate holding every id once
    there are two or more segments.
  - *Target docs per segment* is modelled exactly as its code is written, as a
    method with the labelled nested loop over a list of groups. It is proved
    equal to a reference function, and the properties are proved about that
    function. The code differs from what a reader of its name might expect:
    - at most one group is ever opened;
    - the group keeps the first segment's document count and never adds to it,
      so each later segment is tested against the first segment alone, with no
      running total;
    - a group with a single member is still returned as a candidate;
    - a candidate's total can therefore reach or pass the target, and
      `[5000, 6000]` with target 10000 gives the candidate `[first id]`, not
      an empty list.

    The model follows the code. The last two points are lemmas. A third lemma
    shows that merging a lone segment yields a lone segment that is proposed
    again. This is consistent with the driver runs annotated "Infinite loop!"
    not returning, assuming the engine executes a one-segment candidate and
    asks the policy again after each merge; the engine is not modelled.
- **The segment-file count** (`segment_files.dfy`, module `SegmentFiles`). This
  is the loop of `count_segment_file_counts`. It sorts the entries of the
  index directory by file-name suffix into six counters, in place.
- **The document helpers** (`index_value.dfy`, module `IndexValue`). They
  normalise a facet path to start with "/" and add an optional facet, text or
  integer value to a document. The document is modelled as an append-only
  sequence of (field, value) entries.
- **The log aggregator** (`merge_policy_stats.dfy`, module
  `MergePolicyStats`). This is the Python script's loop. It counts the JSON
  lines that the policies print, builds a histogram keyed by the raw logged
  count, and reports every line that raises.

`wrappers.dfy` holds the `Option` and `Result` types the modules share.

Inputs that come from outside the code:
- the segment snapshot;
- the directory listing `read_dir` returns;
- the lines of the log file, each paired with what `json.loads` decodes it to.

The model takes these as parameters.

## Model

| member | source | states |
|---|---|---|
| MergePolicy.MergeWheneverCandidates | src/store/utils/merge_policy.rs:80-93 | no candidate exactly when the snapshot has at most one segment; otherwise one candidate listing every segment id in snapshot order, whatever the document counts |
| MergePolicy.MergeWheneverFixedPoint | src/store/utils/merge_policy.rs:83-92 | once its candidate is merged, the snapshot is one segment holding all documents, and the policy then proposes nothing |
| MergePolicy.TargetDocsReference | src/store/utils/merge_policy.rs:37-58 | no candidate exactly when the snapshot is empty; otherwise exactly one candidate, which starts with the first segment's id, is no longer than the snapshot and names only ids of the snapshot |
| MergePolicy.TargetDocsCandidates | src/store/utils/merge_policy.rs:34-59 | the labelled nested group loop returns the reference result: nothing for an empty snapshot, else the single candidate of the first id followed by the later ids that fit beside the first segment's count |
| MergePolicy.LaterSelection | src/store/utils/merge_policy.rs:39-47 | the later members are, in snapshot order and each once, exactly the later positions whose count plus the first segment's count is below the target |
| MergePolicy.TargetDocsSubsequence | src/store/utils/merge_policy.rs:37-58 | a non-empty snapshot gives exactly one candidate; it starts with the first segment whatever that segment's own count, and is the order-preserving subsequence of the snapshot at position 0 and the fitting later positions |
| MergePolicy.TargetDocsMembership | src/store/utils/merge_policy.rs:43-47 | with unique ids, a later segment is in the candidate if and only if docs(first) + docs(it) < target |
| MergePolicy.TargetDocsNoDuplicates | src/store/utils/merge_policy.rs:39-47 | with unique ids, no id appears twice in the candidate |
| MergePolicy.TargetDocsSingleMemberExample | src/store/utils/merge_policy.rs:50-58 | counts [5000, 6000] with target 10000 give one candidate holding only the first id |
| MergePolicy.TargetDocsAllFitExample | src/store/utils/merge_policy.rs:39-58 | counts [1000, 2000, 3000] with target 10000 give one candidate holding all three ids in order |
| MergePolicy.TargetDocsCandidateMayReachTarget | src/store/utils/merge_policy.rs:43-46 | because the group count is never raised, counts [5000, 4000, 4000] with target 10000 merge all three segments, 13000 documents |
| MergePolicy.ApplyMerge | src/store/utils/merge_policy.rs:55-58 | the engine step assumed for a returned candidate: the segments left beside the new one are exactly the snapshot's segments outside the candidate, the new segment at the end holds the merged documents, and the total document count is unchanged |
| MergePolicy.MergeConservesDocs | src/store/utils/merge_policy.rs:55-58 | every document of the snapshot is either left in place or merged, and none is counted twice |
| MergePolicy.TargetDocsNeverSettles | src/store/utils/merge_policy.rs:50-58 | a non-empty snapshot always gets a candidate, and so does the snapshot after it is merged (both hold by definition); a lone segment is proposed alone and merges into a lone segment with the same count |
| SegmentFiles.CountSegmentFileCounts | src/bin/indexer.rs:66-107 | a failed `read_dir` is the only error returned; otherwise the result is `Ok` with the counts of the whole listing |
| SegmentFiles.EmptyListing | src/bin/indexer.rs:69-76 | all six counters start at zero |
| SegmentFiles.EntryStep | src/bin/indexer.rs:78-104 | each entry raises at most one counter, by one: the one its suffix names |
| SegmentFiles.BumpRaisesOne | src/bin/indexer.rs:83-94 | bumping one kind adds one to that counter, leaves the other five alone, and adds one to the total |
| SegmentFiles.EndsWithIsSuffix | src/bin/indexer.rs:83-93 | `ends_with` holds exactly when the suffix is the last characters of the name |
| SegmentFiles.Classify | src/bin/indexer.rs:83-95 | a classified name ends with the suffix of the kind it is given, and a name is left unclassified exactly when it ends with none of the six suffixes |
| SegmentFiles.NoSuffixEndsAnother | src/bin/indexer.rs:83-95 | none of fast, fieldnorm, idx, pos, store, term ends with another of them |
| SegmentFiles.SuffixesExclusive | src/bin/indexer.rs:83-95 | no name ends with two of the six suffixes |
| SegmentFiles.ClassifyExact | src/bin/indexer.rs:83-95 | the first-match chain puts a name under a kind if and only if the name ends with that kind's suffix |
| SegmentFiles.UnmatchedEntryChangesNothing | src/bin/indexer.rs:95-102 | a failed entry, a non-UTF-8 name or a name without a component suffix leaves every counter unchanged |
| SegmentFiles.CounterIsNumEnding | src/bin/indexer.rs:83-95 | each counter equals the number of readable names that end with its suffix |
| SegmentFiles.TotalIsClassified | src/bin/indexer.rs:78-104 | the counters add up to the number of classified entries, which is at most the number of directory entries |
| IndexValue.FacetPath | src/store/utils/index_value.rs:5-9 | the facet path starts with "/", ends with the given value, and is one character longer exactly when the value did not start with "/" |
| IndexValue.FacetPathIdempotent | src/store/utils/index_value.rs:5-9 | normalising twice is normalising once; a value is kept as it is if and only if it starts with "/" |
| IndexValue.EmptyFacetIsRoot | src/store/utils/index_value.rs:6-9 | the empty value becomes "/" |
| IndexValue.ExplicitRootSameFacet | src/store/utils/index_value.rs:5-9 | writing the leading "/" yourself gives the same facet if and only if the value had none |
| IndexValue.IndexFacet | src/store/utils/index_value.rs:4-13 | the document gains exactly one entry at its end, a facet for the field whose path is the normalised value; earlier entries are kept |
| IndexValue.IndexFacetCounts | src/store/utils/index_value.rs:11-12 | the field gets one more entry and every other field keeps its number of entries |
| IndexValue.IndexOptionalFacet | src/store/utils/index_value.rs:15-24 | an absent value leaves the document unchanged; a present one gives what `index_facet` gives |
| IndexValue.IndexOptionalText | src/store/utils/index_value.rs:26-35 | an absent value leaves the document unchanged; a present one appends exactly one text entry for the field |
| IndexValue.IndexOptionalI64 | src/store/utils/index_value.rs:37-46 | an absent value leaves the document unchanged; a present one appends exactly one integer entry for the field |
| IndexValue.OptionalHelpersCount | src/store/utils/index_value.rs:15-46 | each optional helper adds one entry to its field for a present value, and otherwise no field's count changes |
| IndexValue.RootedPreserved | src/store/utils/index_value.rs:4-46 | if every facet of the document starts with "/", that still holds after any of the four helpers |
| MergePolicyStats.StripLeft | logs/parse_merge_policy_stats.py:31 | drops exactly the leading run of whitespace (of `str.strip()` or of `int()`) |
| MergePolicyStats.StripRight | logs/parse_merge_policy_stats.py:31 | drops exactly the trailing run of whitespace (of `str.strip()` or of `int()`) |
| MergePolicyStats.Strip | logs/parse_merge_policy_stats.py:31 | the result is no longer than the line and neither starts nor ends with whitespace; a line without surrounding whitespace comes back unchanged |
| MergePolicyStats.StripKeepsMiddle | logs/parse_merge_policy_stats.py:31 | the stripped line is a slice of the line with only whitespace before and after it, so the middle survives unchanged |
| MergePolicyStats.StripFramed | logs/parse_merge_policy_stats.py:31 | whitespace put around a text that neither starts nor ends with whitespace is exactly what stripping removes |
| MergePolicyStats.ParseInt | logs/parse_merge_policy_stats.py:22 | `int()` of a string fails on blank text; any text it accepts ends, after stripping `int()`'s whitespace, with a digit, and starts with '-' when the value is negative |
| MergePolicyStats.ParseIntAccepts | logs/parse_merge_policy_stats.py:22 | `int()` accepts `int()` whitespace, an optional '+' or '-', well-formed digits with single underscores between digits, and whitespace again, and gives the signed decimal value of the digits |
| MergePolicyStats.ParseIntDomain | logs/parse_merge_policy_stats.py:22 | `int()` of a string succeeds if and only if, with `int()` whitespace stripped, it is an optional '+' or '-' followed by well-formed digits |
| MergePolicyStats.ParseIntShape | logs/parse_merge_policy_stats.py:22 | the converse of `ParseIntAccepts`: every text `int()` accepts is `int()` whitespace, an optional '+' or '-', well-formed digits and whitespace again, and its value is the signed value of those digits |
| MergePolicyStats.ParseUnsigned | logs/parse_merge_policy_stats.py:22 | a text that strips to well-formed digits is read as their value |
| MergePolicyStats.ParseSigned | logs/parse_merge_policy_stats.py:22 | a text that strips to a sign and well-formed digits is read as their value, negated for '-' |
| MergePolicyStats.SeparatorRejectedByInt | logs/parse_merge_policy_stats.py:22 | `str.strip()` removes a leading U+001C, but `int()` of a count framed by it raises |
| MergePolicyStats.IntArg | logs/parse_merge_policy_stats.py:22 | `int()` succeeds only on booleans, numbers and strings; booleans give 0 and 1, and numbers give themselves |
| MergePolicyStats.HistogramKey | logs/parse_merge_policy_stats.py:26-29 | a string count is keyed by its raw text; a boolean or number count by its integer value, so `true` and `1` share a key |
| MergePolicyStats.LineOutcome | logs/parse_merge_policy_stats.py:17-22 | a line is counted if and only if it decodes to an object with a string 'run' and a 'count' that `int()` accepts, and then under that count's raw value; it is skipped if and only if its 'run' is present and not a string; a line that does not decode, is not an object or lacks 'run' raises |
| MergePolicyStats.NonStatMessage | logs/parse_merge_policy_stats.py:31 | the message is the fixed prefix, the stripped line and a closing quote, in that order |
| MergePolicyStats.Step | logs/parse_merge_policy_stats.py:24-29 | a counted line adds one to `calls` and one to its key's entry, creating it at 1 and leaving every other entry alone; a skipped or rejected line changes nothing |
| MergePolicyStats.CountRecord | logs/parse_merge_policy_stats.py:24-29 | the two updates of a counted line are exactly one step of the histogram under the raw count's key |
| MergePolicyStats.CreateThenIncrement | logs/parse_merge_policy_stats.py:26-29 | creating a missing entry at 0 and then adding 1 is one increment of that key's entry |
| MergePolicyStats.CountLine | logs/parse_merge_policy_stats.py:16-31 | the body of the loop moves the stats by exactly the line's outcome, and raises exactly when the outcome is a rejection |
| MergePolicyStats.ParseStats | logs/parse_merge_policy_stats.py:10-31 | the loop ends with the stats and the messages of the whole file, and `calls` equals the sum of the histogram |
| MergePolicyStats.InitialConsistent | logs/parse_merge_policy_stats.py:10-13 | the stats start with zero calls and an empty histogram |
| MergePolicyStats.StepConsistent | logs/parse_merge_policy_stats.py:24-29 | every line keeps `calls` equal to the sum of the histogram's values |
| MergePolicyStats.AggregateConsistent | logs/parse_merge_policy_stats.py:15-29 | after any prefix of the file, `calls` equals the sum of the histogram's values |
| MergePolicyStats.EveryLineAccounted | logs/parse_merge_policy_stats.py:15-31 | counted, skipped and reported lines together are exactly the lines of the file |
| MergePolicyStats.DecimalString | src/store/utils/merge_policy.rs:35 | the printed segment count is a non-empty string of ASCII digits, without a leading zero, whose value is the count |
| MergePolicyStats.PolicyLogText | src/store/utils/merge_policy.rs:35 | the text a policy prints per call is one line, ended by its only newline |
| MergePolicyStats.PolicyLogLine | src/store/utils/merge_policy.rs:35 | for a run id that needs no JSON escaping, the printed line is paired with the record `json.loads` is taken to give for it: an object whose 'run' is the id and whose 'count' `int()` reads back as the segment count |
| MergePolicyStats.DigitsParse | logs/parse_merge_policy_stats.py:22 | `int()` reads a plain run of ASCII digits as its decimal value |
| MergePolicyStats.DecimalRoundTrip | logs/parse_merge_policy_stats.py:22 | `int()` of a printed count gives the count back |
| MergePolicyStats.RecordCounted | logs/parse_merge_policy_stats.py:17-29 | a record with a string 'run' and a 'count' string that `int()` accepts is counted under that string |
| MergePolicyStats.PolicyLineCounted | logs/parse_merge_policy_stats.py:17-29 | for a run id that needs no JSON escaping, a policy's log line with count n is counted and raises the entry for the text of n by one |
| MergePolicyStats.LeadingZerosExample | logs/parse_merge_policy_stats.py:22 | "7" and "007" are different texts that `int()` reads as the same 7 |
| MergePolicyStats.RawTextKeys | logs/parse_merge_policy_stats.py:26-29 | two different count texts are two histogram keys even when they are the same number; each raises only its own entry |
| MergePolicyStats.BoolCountAliasesOne | logs/parse_merge_policy_stats.py:26-29 | a count of `true` and a count of `1` land on the same key |

## Left out

- MergePolicy.TargetDocsCandidates: the target and the document counts are unbounded naturals. The `u32` addition `group.0 + num_docs` (src/store/utils/merge_policy.rs:44) can overflow in the code, which panics in debug builds and wraps in release builds; the model does not capture that.
- MergePolicy.TargetDocsNeverSettles: the lemma is about the policy alone. It assumes that the engine executes a one-segment candidate; the engine is not part of this model.
- MergePolicy.TargetDocsNeverSettles: it also assumes that the engine asks the policy again after each merge, which is engine scheduling and is not modelled.
- MergePolicyStats.PolicyLogLine: only run ids without a quote, a backslash or a control character are covered. The `println!` inserts the id verbatim, so other ids give lines that `json.loads` rejects or reads differently, and the model states nothing about those lines.
- SegmentFiles.CountSegmentFileCounts: the six counters are unbounded naturals, not `u32`, so the overflow after 2^32 - 1 matching files is not modelled.
- The `println!` that each policy runs first (src/store/utils/merge_policy.rs:35, 81) has no effect on the result and is left out as output. Its text is modelled only as input to the aggregator (`MergePolicyStats.PolicyLogText`).
- The `new` constructors of the two policies are the datatype constructors `TargetDocsPerSegmentPolicy(runId, targetDocsPerSegment)` and `MergeWheneverPossiblePolicy(runId)`. They only store their arguments.
- `as_box` only moves the policy onto the heap, so it is not modelled.
- Segment ids are the engine's UUIDs; they are modelled as naturals compared only for equality. `SegmentMeta` keeps only the id and the document count the policies read.
- `ApplyMerge` is the index engine's merge step, which is not part of this repository. It is stated as an assumption: the merged segments leave, and one new segment holding all their documents is added. Merge threads, scheduling, `commit` and `wait_merging_threads` are concurrency inside the engine and are left out.
- `read_dir` and the directory iterator are an input, `Result<seq<DirEntry>, IoError>`. The name of each entry is an `Option<string>`, which is `None` when `to_str` fails. The `println!` for a failed entry (src/bin/indexer.rs:101) is output only.
- Facets are kept as their path text. The engine's `Facet::from` parsing and its internal encoding are not part of this model. `IndexValue.RootedPreserved` shows that every path handed to it starts with "/".
- The engine's document type is modelled as an append-only entry list. Its own storage and the schema (src/store/people.rs) are not part of this model.
- `json.loads` is an input: each line comes with its decoded value, or `None` when decoding raises. Opening the file, the `isfile` check (lines 5-8), splitting into lines and the final `json.dumps` print are I/O. The "Non merge policy stat line" messages are returned as a sequence instead of printed.
- MergePolicyStats.IntArg: JSON numbers are integers only. `int()` of a float (truncation, and the errors for NaN and infinity) is not modelled.
- MergePolicyStats.IntArg: `int()` of a string accepts only ASCII digits. Other Unicode decimal digits, and the interpreter's limit on the number of digits in a string conversion, are not modelled.
- Python keeps whichever spelling of an aliased key came first (`True` or `1`) for printing. The model keeps one integer key for both, which is the dict's equality, not its printed key.
- The benchmark drivers and `main` (src/bin/indexer.rs:110-674), `get_index`, the configuration and global singletons, the serde record types and the data generator are I/O, timing and setup. They are not part of this model.
