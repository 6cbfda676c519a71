/**
 * The count of segment component files that the benchmark reports after each
 * run: every directory entry whose name ends with one of six component
 * suffixes raises the matching counter.
 */
module SegmentFiles {
  import opened Wrappers

  /** `SegmentFileCounts`: one counter per component file kind. */
  datatype SegmentFileCounts = SegmentFileCounts(fast: nat, fieldnorm: nat, idx: nat, pos: nat, store: nat, term: nat)

  /** The error `read_dir` reports; its contents are the operating system's. */
  datatype IoError = IoError(message: string)

  /**
   * One item of the directory iterator: a failed read, or an entry whose file
   * name is `None` when it is not valid UTF-8.
   */
  datatype DirEntry = EntryError(error: IoError) | Entry(fileName: Option<string>)

  /** The six component kinds, in the order the classifier tests them. */
  datatype Suffix = Fast | Fieldnorm | Idx | Pos | Store | Term

  function SuffixText(s: Suffix): string
  {
    match s
    case Fast => "fast"
    case Fieldnorm => "fieldnorm"
    case Idx => "idx"
    case Pos => "pos"
    case Store => "store"
    case Term => "term"
  }

  /** `str::ends_with`, compared from the last character backwards. */
  predicate EndsWith(name: string, suffix: string)
    decreases |suffix|
  {
    if suffix == [] then true
    else name != [] && name[|name| - 1] == suffix[|suffix| - 1] && EndsWith(name[..|name| - 1], suffix[..|suffix| - 1])
  }

  const Zero := SegmentFileCounts(0, 0, 0, 0, 0, 0)

  function Counter(c: SegmentFileCounts, s: Suffix): nat
  {
    match s
    case Fast => c.fast
    case Fieldnorm => c.fieldnorm
    case Idx => c.idx
    case Pos => c.pos
    case Store => c.store
    case Term => c.term
  }

  function Total(c: SegmentFileCounts): nat
  {
    c.fast + c.fieldnorm + c.idx + c.pos + c.store + c.term
  }

  /** The first suffix, in testing order, that `name` ends with. */
  function Classify(name: string): (r: Option<Suffix>)
    ensures r.Some? ==> EndsWith(name, SuffixText(r.value))
    ensures r.None? <==> forall s :: !EndsWith(name, SuffixText(s))
  {
    if EndsWith(name, "fast") then Some(Fast)
    else if EndsWith(name, "fieldnorm") then Some(Fieldnorm)
    else if EndsWith(name, "idx") then Some(Idx)
    else if EndsWith(name, "pos") then Some(Pos)
    else if EndsWith(name, "store") then Some(Store)
    else if EndsWith(name, "term") then Some(Term)
    else None
  }

  /** The suffix an entry is counted under: none for failed reads and non-UTF-8 names. */
  function EntryKind(e: DirEntry): Option<Suffix>
  {
    match e
    case EntryError(_) => None
    case Entry(None) => None
    case Entry(Some(name)) => Classify(name)
  }

  /** Raises exactly one counter by one. */
  function Bump(c: SegmentFileCounts, s: Suffix): SegmentFileCounts
  {
    match s
    case Fast => c.(fast := c.fast + 1)
    case Fieldnorm => c.(fieldnorm := c.fieldnorm + 1)
    case Idx => c.(idx := c.idx + 1)
    case Pos => c.(pos := c.pos + 1)
    case Store => c.(store := c.store + 1)
    case Term => c.(term := c.term + 1)
  }

  /** The counters after the loop has seen every entry, in order. */
  function CountsOf(entries: seq<DirEntry>): SegmentFileCounts
  {
    if entries == [] then Zero
    else
      var c := CountsOf(entries[..|entries| - 1]);
      match EntryKind(entries[|entries| - 1])
      case None => c
      case Some(s) => Bump(c, s)
  }

  /**
   * `count_segment_file_counts`: the directory listing is the result of
   * `read_dir`; an error there is the only error returned, and once the
   * listing is open the loop always ends in `Ok`.
   */
  method CountSegmentFileCounts(directory: Result<seq<DirEntry>, IoError>)
    returns (r: Result<SegmentFileCounts, IoError>)
    ensures directory.Err? ==> r == Err(directory.error)
    ensures directory.Ok? ==> r == Ok(CountsOf(directory.value))
  {
    if directory.Err? {
      return Err(directory.error);
    }
    var entries := directory.value;
    var counts := SegmentFileCounts(0, 0, 0, 0, 0, 0);
    for i := 0 to |entries|
      invariant counts == CountsOf(entries[..i])
    {
      assert entries[..i + 1][..i] == entries[..i];
      match entries[i] {
        case Entry(fileName) =>
          match fileName {
            case Some(name) =>
              if EndsWith(name, "fast") {
                counts := counts.(fast := counts.fast + 1);
              } else if EndsWith(name, "fieldnorm") {
                counts := counts.(fieldnorm := counts.fieldnorm + 1);
              } else if EndsWith(name, "idx") {
                counts := counts.(idx := counts.idx + 1);
              } else if EndsWith(name, "pos") {
                counts := counts.(pos := counts.pos + 1);
              } else if EndsWith(name, "store") {
                counts := counts.(store := counts.store + 1);
              } else if EndsWith(name, "term") {
                counts := counts.(term := counts.term + 1);
              }
            case None =>
          }
        case EntryError(_) =>
      }
    }
    assert entries[..|entries|] == entries;
    return Ok(counts);
  }

  // ---------------------------------------------------------------------------
  // Properties
  // ---------------------------------------------------------------------------

  /** How many readable entry names end with `suffix`, whatever else they end with. */
  function NumEnding(entries: seq<DirEntry>, suffix: string): nat
  {
    if entries == [] then 0
    else
      var last := entries[|entries| - 1];
      NumEnding(entries[..|entries| - 1], suffix)
      + (if last.Entry? && last.fileName.Some? && EndsWith(last.fileName.value, suffix) then 1 else 0)
  }

  /** How many entries are readable names with some component suffix. */
  function NumClassified(entries: seq<DirEntry>): nat
  {
    if entries == [] then 0
    else NumClassified(entries[..|entries| - 1]) + (if EntryKind(entries[|entries| - 1]).Some? then 1 else 0)
  }

  /** An empty listing leaves all six counters at zero. */
  lemma EmptyListing()
    ensures forall s :: Counter(CountsOf([]), s) == 0
  {
  }

  /** `EndsWith` holds exactly when the suffix is the name's last `|suffix|` characters. */
  lemma {:induction false} EndsWithIsSuffix(name: string, suffix: string)
    ensures EndsWith(name, suffix) <==> |suffix| <= |name| && name[|name| - |suffix|..] == suffix
    decreases |suffix|
  {
    if suffix != [] && name != [] {
      var n', s' := name[..|name| - 1], suffix[..|suffix| - 1];
      EndsWithIsSuffix(n', s');
      if |suffix| <= |name| {
        assert name[|name| - |suffix|..] == n'[|n'| - |s'|..] + [name[|name| - 1]];
        assert suffix == s' + [suffix[|suffix| - 1]];
      }
    }
  }

  /** A suffix ending shared by two names forces one suffix to end the other. */
  lemma {:induction false} SharedEnding(name: string, a: string, b: string)
    requires EndsWith(name, a) && EndsWith(name, b) && |a| <= |b|
    ensures EndsWith(b, a)
    decreases |a|
  {
    if a != [] {
      SharedEnding(name[..|name| - 1], a[..|a| - 1], b[..|b| - 1]);
    }
  }

  /** A name is at least as long as any of its endings. */
  lemma {:induction false} EndingIsShorter(name: string, suffix: string)
    requires EndsWith(name, suffix)
    ensures |suffix| <= |name|
    decreases |suffix|
  {
    if suffix != [] {
      EndingIsShorter(name[..|name| - 1], suffix[..|suffix| - 1]);
    }
  }

  /** No component suffix ends another one. */
  lemma NoSuffixEndsAnother(s: Suffix, t: Suffix)
    requires s != t
    ensures !EndsWith(SuffixText(t), SuffixText(s))
  {
    if EndsWith(SuffixText(t), SuffixText(s)) {
      EndingIsShorter(SuffixText(t), SuffixText(s));
    }
    match s
    case Fast =>
    case Fieldnorm =>
    case Idx =>
    case Pos =>
    case Store =>
    case Term =>
      assert !EndsWith("fieldnorm", "term") by {
        assert !EndsWith("fieldn", "t");
        assert !EndsWith("fieldno", "te");
        assert !EndsWith("fieldnor", "ter");
      }
  }

  /** So a name ends with at most one of them. */
  lemma {:induction false} SuffixesExclusive(name: string, s: Suffix, t: Suffix)
    requires s != t
    ensures !(EndsWith(name, SuffixText(s)) && EndsWith(name, SuffixText(t)))
  {
    if EndsWith(name, SuffixText(s)) && EndsWith(name, SuffixText(t)) {
      if |SuffixText(s)| <= |SuffixText(t)| {
        SharedEnding(name, SuffixText(s), SuffixText(t));
        NoSuffixEndsAnother(s, t);
      } else {
        SharedEnding(name, SuffixText(t), SuffixText(s));
        NoSuffixEndsAnother(t, s);
      }
    }
  }

  /** Because the suffixes are exclusive, the first-match classifier picks the one suffix the name ends with. */
  lemma {:induction false} ClassifyExact(name: string, s: Suffix)
    ensures Classify(name) == Some(s) <==> EndsWith(name, SuffixText(s))
  {
    if EndsWith(name, SuffixText(s)) {
      if s != Fast { SuffixesExclusive(name, s, Fast); }
      if s != Fieldnorm { SuffixesExclusive(name, s, Fieldnorm); }
      if s != Idx { SuffixesExclusive(name, s, Idx); }
      if s != Pos { SuffixesExclusive(name, s, Pos); }
      if s != Store { SuffixesExclusive(name, s, Store); }
    }
  }

  /** Each entry raises at most one counter, and only the one its kind names. */
  lemma {:induction false} EntryStep(entries: seq<DirEntry>, s: Suffix)
    requires entries != []
    ensures Counter(CountsOf(entries), s)
      == Counter(CountsOf(entries[..|entries| - 1]), s) + (if EntryKind(entries[|entries| - 1]) == Some(s) then 1 else 0)
    ensures Total(CountsOf(entries)) <= Total(CountsOf(entries[..|entries| - 1])) + 1
  {
    var c := CountsOf(entries[..|entries| - 1]);
    match EntryKind(entries[|entries| - 1]) {
      case None =>
      case Some(k) =>
        assert CountsOf(entries) == Bump(c, k);
        BumpRaisesOne(c, k, s);
    }
  }

  /** `Bump` raises the named counter by one and leaves the other five alone. */
  lemma BumpRaisesOne(c: SegmentFileCounts, k: Suffix, s: Suffix)
    ensures Counter(Bump(c, k), s) == Counter(c, s) + (if k == s then 1 else 0)
    ensures Total(Bump(c, k)) == Total(c) + 1
  {
    match k
    case Fast =>
    case Fieldnorm =>
    case Idx =>
    case Pos =>
    case Store =>
    case Term =>
  }

  /** Failed entries, non-UTF-8 names and names without a component suffix change nothing. */
  lemma {:induction false} UnmatchedEntryChangesNothing(entries: seq<DirEntry>, e: DirEntry)
    requires e.EntryError? || e == Entry(None) || (e.Entry? && e.fileName.Some? && Classify(e.fileName.value).None?)
    ensures CountsOf(entries + [e]) == CountsOf(entries)
  {
    assert (entries + [e])[..|entries|] == entries;
  }

  /** Each counter equals the number of readable names ending with its suffix. */
  lemma {:induction false} CounterIsNumEnding(entries: seq<DirEntry>, s: Suffix)
    ensures Counter(CountsOf(entries), s) == NumEnding(entries, SuffixText(s))
  {
    if entries != [] {
      var last := entries[|entries| - 1];
      CounterIsNumEnding(entries[..|entries| - 1], s);
      EntryStep(entries, s);
      if last.Entry? && last.fileName.Some? {
        ClassifyExact(last.fileName.value, s);
      }
    }
  }

  /** The counters together count the classified entries, so never more than the entries. */
  lemma {:induction false} TotalIsClassified(entries: seq<DirEntry>)
    ensures Total(CountsOf(entries)) == NumClassified(entries) <= |entries|
  {
    if entries != [] {
      var init := entries[..|entries| - 1];
      TotalIsClassified(init);
      match EntryKind(entries[|entries| - 1]) {
        case None =>
        case Some(k) =>
          assert CountsOf(entries) == Bump(CountsOf(init), k);
          BumpRaisesOne(CountsOf(init), k, k);
      }
    }
  }
}
