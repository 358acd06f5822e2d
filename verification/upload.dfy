/** The ingestion coordinator of components/FileUpload.tsx: admission of a
    newly selected batch against the pending files and the in-flight tasks,
    the settlement of each task, and removal of a pending file. Tasks settle
    one at a time, in any order; each settlement is one atomic step. */
module Upload {
  import opened Wrappers
  import opened Text
  import Seqs
  import opened Extract

  const MaxFiles: nat := 5
  const MaxFileSizeMb: nat := 30
  const MaxFileBytes: nat := MaxFileSizeMb * 1024 * 1024

  /** An in-flight extraction, as listed while it runs. */
  datatype ProcessingEntry = ProcessingEntry(id: string, name: string)

  /** The pending files and the in-flight entries. */
  datatype UploadState = UploadState(files: seq<UploadedFile>, processing: seq<ProcessingEntry>)

  /** An admitted file and the id of its in-flight entry. */
  datatype Task = Task(file: RawFile, id: string)

  /** The id `${name}-${lastModified}-${size}`. */
  function TaskId(f: RawFile): string {
    f.name + "-" + IntToDecimal(f.lastModified) + "-" + NatToDecimal(f.size)
  }

  predicate NameTaken(name: string, pending: seq<UploadedFile>) {
    exists i :: 0 <= i < |pending| && pending[i].name == name
  }

  predicate IdInFlight(id: string, inFlight: seq<ProcessingEntry>) {
    exists i :: 0 <= i < |inFlight| && inFlight[i].id == id
  }

  /** A file the loop admits when it is reached below the count limit: within
      the size cap (inclusive), no pending file of the same name, and no
      in-flight entry of the same id. */
  predicate Admissible(f: RawFile, pending: seq<UploadedFile>, inFlight: seq<ProcessingEntry>) {
    f.size <= MaxFileBytes && !NameTaken(f.name, pending) && !IdInFlight(TaskId(f), inFlight)
  }

  /** The files of `batch` that are admissible, in order. */
  function Admissibles(batch: seq<RawFile>, pending: seq<UploadedFile>, inFlight: seq<ProcessingEntry>): (r: seq<RawFile>)
    ensures |r| <= |batch|
    ensures Seqs.Subseq(r, batch)
    ensures forall i :: 0 <= i < |r| ==> Admissible(r[i], pending, inFlight)
    ensures forall i :: 0 <= i < |batch| && Admissible(batch[i], pending, inFlight) ==> batch[i] in r
    decreases |batch|
  {
    if batch == [] then []
    else
      var rest := Admissibles(batch[1..], pending, inFlight);
      if Admissible(batch[0], pending, inFlight) then
        var r := [batch[0]] + rest;
        assert r[0] == batch[0] && r[1..] == rest;
        assert forall i :: 1 <= i < |batch| ==> batch[i] == batch[1..][i - 1];
        r
      else
        assert forall i :: 1 <= i < |batch| ==> batch[i] == batch[1..][i - 1];
        rest
  }

  datatype Admission = Admission(accepted: seq<RawFile>, notices: seq<Notice>)

  /** The "too large" alerts for the files of `s` over the size cap, in order. */
  function OversizeNotices(s: seq<RawFile>): (r: seq<Notice>)
    ensures |r| <= |s|
    ensures forall i :: 0 <= i < |r| ==> r[i].TooLarge?
    ensures (forall i :: 0 <= i < |s| ==> s[i].size <= MaxFileBytes) ==> r == []
    ensures forall i :: 0 <= i < |s| && s[i].size > MaxFileBytes ==> TooLarge(s[i].name) in r
  {
    if s == [] then []
    else
      var rest := OversizeNotices(s[1..]);
      assert forall i :: 1 <= i < |s| ==> s[i] == s[1..][i - 1];
      (if s[0].size > MaxFileBytes then [TooLarge(s[0].name)] else []) + rest
  }

  /** How many files of `s` are admissible. */
  function AdmissibleCount(s: seq<RawFile>, pending: seq<UploadedFile>, inFlight: seq<ProcessingEntry>): (n: nat)
    ensures n <= |s|
  {
    if s == [] then 0
    else (if Admissible(s[0], pending, inFlight) then 1 else 0) + AdmissibleCount(s[1..], pending, inFlight)
  }

  /** The count limit is met once the files reached so far, those before
      index `j` of the batch, have supplied enough admissible ones. */
  predicate FullAt(batch: seq<RawFile>, pending: seq<UploadedFile>, inFlight: seq<ProcessingEntry>, chosen: nat, j: nat)
    requires j <= |batch|
  {
    |pending| + |inFlight| + chosen + AdmissibleCount(batch[..j], pending, inFlight) >= MaxFiles
  }

  /** Where the admission loop stops: the first index at which the count
      limit is met, or the end of the batch. */
  function LimitPoint(batch: seq<RawFile>, pending: seq<UploadedFile>, inFlight: seq<ProcessingEntry>, chosen: nat): (k: nat)
    ensures k <= |batch|
    ensures k == |batch| || FullAt(batch, pending, inFlight, chosen, k)
    ensures forall i :: 0 <= i < k ==> !FullAt(batch, pending, inFlight, chosen, i)
  {
    LimitFrom(batch, pending, inFlight, chosen, 0)
  }

  function LimitFrom(batch: seq<RawFile>, pending: seq<UploadedFile>, inFlight: seq<ProcessingEntry>, chosen: nat, j: nat): (k: nat)
    requires j <= |batch|
    requires forall i :: 0 <= i < j ==> !FullAt(batch, pending, inFlight, chosen, i)
    ensures j <= k <= |batch|
    ensures k == |batch| || FullAt(batch, pending, inFlight, chosen, k)
    ensures forall i :: 0 <= i < k ==> !FullAt(batch, pending, inFlight, chosen, i)
    decreases |batch| - j
  {
    if j == |batch| || FullAt(batch, pending, inFlight, chosen, j) then j
    else LimitFrom(batch, pending, inFlight, chosen, j + 1)
  }

  /** The alerts one selection raises, stated without the loop: a "too
      large" alert for every oversize file reached before the limit point,
      then a single "too many files" alert exactly when the limit is met
      with files of the batch still left. */
  function NoticesOf(batch: seq<RawFile>, pending: seq<UploadedFile>, inFlight: seq<ProcessingEntry>, chosen: nat): (r: seq<Notice>)
    ensures TooManyFiles in r <==> LimitPoint(batch, pending, inFlight, chosen) < |batch|
    ensures r != [] && r[|r| - 1] == TooManyFiles ==> forall i :: 0 <= i < |r| - 1 ==> r[i].TooLarge?
    ensures forall i :: 0 <= i < |r| ==> r[i].TooLarge? || (i == |r| - 1 && r[i] == TooManyFiles)
  {
    var k := LimitPoint(batch, pending, inFlight, chosen);
    var tail := if k < |batch| then [TooManyFiles] else [];
    var over := OversizeNotices(batch[..k]);
    assert forall i :: 0 <= i < |over| ==> over[i] != TooManyFiles;
    over + tail
  }

  /** The admission loop of `handleFileChange`, from the current file on,
      with `chosen` files already admitted in this call. Reaching the count
      limit alerts once and stops the whole loop; a file over the size cap
      is alerted and skipped; a duplicate is skipped silently; any other file
      is admitted. Repeats within one batch are not checked. */
  function Admit(batch: seq<RawFile>, pending: seq<UploadedFile>, inFlight: seq<ProcessingEntry>, chosen: nat): (r: Admission)
    ensures |pending| + |inFlight| + chosen >= MaxFiles ==> r.accepted == []
    ensures |pending| + |inFlight| + chosen < MaxFiles ==>
      |pending| + |inFlight| + chosen + |r.accepted| <= MaxFiles
    decreases |batch|
  {
    if batch == [] then Admission([], [])
    else if |pending| + |inFlight| + chosen >= MaxFiles then Admission([], [TooManyFiles])
    else
      var f := batch[0];
      if f.size > MaxFileBytes then
        var rest := Admit(batch[1..], pending, inFlight, chosen);
        Admission(rest.accepted, [TooLarge(f.name)] + rest.notices)
      else if NameTaken(f.name, pending) || IdInFlight(TaskId(f), inFlight) then
        Admit(batch[1..], pending, inFlight, chosen)
      else
        var rest := Admit(batch[1..], pending, inFlight, chosen + 1);
        Admission([f] + rest.accepted, rest.notices)
  }

  /** The loop raises exactly the alerts `NoticesOf` describes: the
      oversize files it reaches, then one count-limit alert if it stops
      early. */
  lemma {:induction false} AdmitNotices(batch: seq<RawFile>, pending: seq<UploadedFile>, inFlight: seq<ProcessingEntry>, chosen: nat)
    ensures Admit(batch, pending, inFlight, chosen).notices == NoticesOf(batch, pending, inFlight, chosen)
    decreases |batch|
  {
    if batch == [] {
      assert LimitPoint(batch, pending, inFlight, chosen) == 0;
    } else {
      assert batch[..0] == [];
      if AtLimit(pending, inFlight, chosen) {
        assert FullAt(batch, pending, inFlight, chosen, 0);
        assert LimitPoint(batch, pending, inFlight, chosen) == 0;
      } else {
        var f := batch[0];
        var next := if Admissible(f, pending, inFlight) then chosen + 1 else chosen;
        var head := if f.size > MaxFileBytes then [TooLarge(f.name)] else [];
        assert Admit(batch, pending, inFlight, chosen).notices
               == head + Admit(batch[1..], pending, inFlight, next).notices;
        AdmitNotices(batch[1..], pending, inFlight, next);
        NoticesShift(batch, pending, inFlight, chosen);
      }
    }
  }

  /** A file over the size cap that the loop reaches before the limit
      point is alerted by name. */
  lemma {:induction false} OversizeAlerted(batch: seq<RawFile>, pending: seq<UploadedFile>, inFlight: seq<ProcessingEntry>, chosen: nat, i: nat)
    requires i < LimitPoint(batch, pending, inFlight, chosen) && batch[i].size > MaxFileBytes
    ensures TooLarge(batch[i].name) in Admit(batch, pending, inFlight, chosen).notices
  {
    var k := LimitPoint(batch, pending, inFlight, chosen);
    AdmitNotices(batch, pending, inFlight, chosen);
    assert batch[..k][i] == batch[i];
    assert TooLarge(batch[i].name) in OversizeNotices(batch[..k]);
  }

  lemma {:induction false} NoticesShift(batch: seq<RawFile>, pending: seq<UploadedFile>, inFlight: seq<ProcessingEntry>, chosen: nat)
    requires batch != [] && !AtLimit(pending, inFlight, chosen)
    ensures var f := batch[0];
      var next := if Admissible(f, pending, inFlight) then chosen + 1 else chosen;
      NoticesOf(batch, pending, inFlight, chosen)
      == (if f.size > MaxFileBytes then [TooLarge(f.name)] else []) + NoticesOf(batch[1..], pending, inFlight, next)
  {
    var f := batch[0];
    var next := if Admissible(f, pending, inFlight) then chosen + 1 else chosen;
    var head := if f.size > MaxFileBytes then [TooLarge(f.name)] else [];
    var k := LimitPoint(batch[1..], pending, inFlight, next);
    assert LimitPoint(batch, pending, inFlight, chosen) == k + 1 by {
      LimitPointShift(batch, pending, inFlight, chosen);
    }
    var over := OversizeNotices(batch[1..][..k]);
    assert OversizeNotices(batch[..k + 1]) == head + over by {
      assert batch[..k + 1] == [f] + batch[1..][..k];
      OversizeCons(f, batch[1..][..k]);
    }
    var tail := if k < |batch[1..]| then [TooManyFiles] else [];
    assert NoticesOf(batch[1..], pending, inFlight, next) == over + tail;
    Seqs.AppendAssoc(head, over, tail);
  }

  lemma {:induction false} OversizeCons(f: RawFile, t: seq<RawFile>)
    ensures OversizeNotices([f] + t)
            == (if f.size > MaxFileBytes then [TooLarge(f.name)] else []) + OversizeNotices(t)
  {
    assert ([f] + t)[1..] == t;
  }

  /** Past a first file below the limit, the limit point is one further on
      than the limit point of the rest of the batch, counted from the
      updated number of chosen files. */
  lemma {:induction false} LimitPointShift(batch: seq<RawFile>, pending: seq<UploadedFile>, inFlight: seq<ProcessingEntry>, chosen: nat)
    requires batch != [] && !AtLimit(pending, inFlight, chosen)
    ensures var next := if Admissible(batch[0], pending, inFlight) then chosen + 1 else chosen;
      LimitPoint(batch, pending, inFlight, chosen) == 1 + LimitPoint(batch[1..], pending, inFlight, next)
  {
    var next := if Admissible(batch[0], pending, inFlight) then chosen + 1 else chosen;
    var k, k' := LimitPoint(batch, pending, inFlight, chosen), LimitPoint(batch[1..], pending, inFlight, next);
    assert batch[..0] == [];
    assert !FullAt(batch, pending, inFlight, chosen, 0);
    forall j | 0 <= j < |batch|
      ensures FullAt(batch, pending, inFlight, chosen, j + 1) == FullAt(batch[1..], pending, inFlight, next, j)
    {
      FullShift(batch, pending, inFlight, chosen, j);
    }
    assert k >= 1;
    assert forall i :: 0 <= i < k - 1 ==> !FullAt(batch[1..], pending, inFlight, next, i);
    if k < |batch| {
      assert FullAt(batch, pending, inFlight, chosen, (k - 1) + 1);
      assert FullAt(batch[1..], pending, inFlight, next, k - 1);
    }
  }

  lemma {:induction false} FullShift(batch: seq<RawFile>, pending: seq<UploadedFile>, inFlight: seq<ProcessingEntry>, chosen: nat, j: nat)
    requires j < |batch|
    ensures var next := if Admissible(batch[0], pending, inFlight) then chosen + 1 else chosen;
      FullAt(batch, pending, inFlight, chosen, j + 1) == FullAt(batch[1..], pending, inFlight, next, j)
  {
    var pre := batch[..j + 1];
    assert pre[0] == batch[0] && pre[1..] == batch[1..][..j];
  }

  /** The admitted files are drawn from the batch, in batch order, and each
      of them is admissible. */
  lemma {:induction false} AdmitSubseq(batch: seq<RawFile>, pending: seq<UploadedFile>, inFlight: seq<ProcessingEntry>, chosen: nat)
    ensures Seqs.Subseq(Admit(batch, pending, inFlight, chosen).accepted, batch)
    ensures forall i :: 0 <= i < |Admit(batch, pending, inFlight, chosen).accepted| ==>
      Admissible(Admit(batch, pending, inFlight, chosen).accepted[i], pending, inFlight)
    decreases |batch|
  {
    if batch != [] {
      AdmitCons(batch, pending, inFlight, chosen);
      if AtLimit(pending, inFlight, chosen) {
      } else if Skipped(batch[0], pending, inFlight) {
        AdmitSubseq(batch[1..], pending, inFlight, chosen);
      } else {
        AdmitSubseq(batch[1..], pending, inFlight, chosen + 1);
        assert ([batch[0]] + Admit(batch[1..], pending, inFlight, chosen + 1).accepted)[1..]
          == Admit(batch[1..], pending, inFlight, chosen + 1).accepted;
      }
    }
  }

  function Max0(n: int): nat {
    if n < 0 then 0 else n
  }

  /** At most `max(0, 5 - pending - inFlight)` files are admitted. */
  lemma {:induction false} AdmitBound(batch: seq<RawFile>, pending: seq<UploadedFile>, inFlight: seq<ProcessingEntry>)
    ensures |Admit(batch, pending, inFlight, 0).accepted| <= Max0(MaxFiles - |pending| - |inFlight|)
  {
  }

  /** Admission is decided file by file: what a batch admits is what its
      first part admits followed by what the rest admits given that count. */
  lemma {:induction false} AdmitSplit(a: seq<RawFile>, b: seq<RawFile>, pending: seq<UploadedFile>, inFlight: seq<ProcessingEntry>, chosen: nat)
    ensures var first := Admit(a, pending, inFlight, chosen).accepted;
      Admit(a + b, pending, inFlight, chosen).accepted
        == first + Admit(b, pending, inFlight, chosen + |first|).accepted
    decreases |a|, 1
  {
    if a == [] {
      assert a + b == b;
    } else if AtLimit(pending, inFlight, chosen) {
      AdmitConsAppend(a, b, pending, inFlight, chosen);
      AdmitCons(a, pending, inFlight, chosen);
    } else if Skipped(a[0], pending, inFlight) {
      AdmitSplitSkip(a, b, pending, inFlight, chosen);
    } else {
      AdmitSplitTake(a, b, pending, inFlight, chosen);
    }
  }

  lemma {:induction false} AdmitSplitSkip(a: seq<RawFile>, b: seq<RawFile>, pending: seq<UploadedFile>, inFlight: seq<ProcessingEntry>, chosen: nat)
    requires a != [] && !AtLimit(pending, inFlight, chosen) && Skipped(a[0], pending, inFlight)
    ensures var first := Admit(a, pending, inFlight, chosen).accepted;
      Admit(a + b, pending, inFlight, chosen).accepted
        == first + Admit(b, pending, inFlight, chosen + |first|).accepted
    decreases |a|, 0
  {
    assert Admit(a + b, pending, inFlight, chosen).accepted == Admit(a[1..] + b, pending, inFlight, chosen).accepted by {
      AdmitConsAppend(a, b, pending, inFlight, chosen);
    }
    assert Admit(a, pending, inFlight, chosen).accepted == Admit(a[1..], pending, inFlight, chosen).accepted by {
      AdmitCons(a, pending, inFlight, chosen);
    }
    AdmitSplit(a[1..], b, pending, inFlight, chosen);
  }

  lemma {:induction false} AdmitSplitTake(a: seq<RawFile>, b: seq<RawFile>, pending: seq<UploadedFile>, inFlight: seq<ProcessingEntry>, chosen: nat)
    requires a != [] && !AtLimit(pending, inFlight, chosen) && !Skipped(a[0], pending, inFlight)
    ensures var first := Admit(a, pending, inFlight, chosen).accepted;
      Admit(a + b, pending, inFlight, chosen).accepted
        == first + Admit(b, pending, inFlight, chosen + |first|).accepted
    decreases |a|, 0
  {
    var first := Admit(a, pending, inFlight, chosen).accepted;
    var rest := Admit(a[1..], pending, inFlight, chosen + 1).accepted;
    AdmitConsAppend(a, b, pending, inFlight, chosen);
    AdmitCons(a, pending, inFlight, chosen);
    assert first == [a[0]] + rest;
    AdmitSplit(a[1..], b, pending, inFlight, chosen + 1);
    var tail := Admit(b, pending, inFlight, chosen + 1 + |rest|).accepted;
    Seqs.AppendAssoc([a[0]], rest, tail);
  }

  lemma {:induction false} AdmitConsAppend(a: seq<RawFile>, b: seq<RawFile>, pending: seq<UploadedFile>, inFlight: seq<ProcessingEntry>, chosen: nat)
    requires a != []
    ensures Admit(a + b, pending, inFlight, chosen).accepted ==
      if AtLimit(pending, inFlight, chosen) then []
      else if Skipped(a[0], pending, inFlight) then Admit(a[1..] + b, pending, inFlight, chosen).accepted
      else [a[0]] + Admit(a[1..] + b, pending, inFlight, chosen + 1).accepted
  {
    assert (a + b)[0] == a[0] && (a + b)[1..] == a[1..] + b;
    AdmitCons(a + b, pending, inFlight, chosen);
  }

  predicate AtLimit(pending: seq<UploadedFile>, inFlight: seq<ProcessingEntry>, chosen: nat) {
    |pending| + |inFlight| + chosen >= MaxFiles
  }

  predicate Skipped(f: RawFile, pending: seq<UploadedFile>, inFlight: seq<ProcessingEntry>) {
    !Admissible(f, pending, inFlight)
  }

  /** One step of the admission loop, as far as admitted files go. */
  lemma {:induction false} AdmitCons(batch: seq<RawFile>, pending: seq<UploadedFile>, inFlight: seq<ProcessingEntry>, chosen: nat)
    requires batch != []
    ensures Admit(batch, pending, inFlight, chosen).accepted ==
      if AtLimit(pending, inFlight, chosen) then []
      else if Skipped(batch[0], pending, inFlight) then Admit(batch[1..], pending, inFlight, chosen).accepted
      else [batch[0]] + Admit(batch[1..], pending, inFlight, chosen + 1).accepted
  {
  }

  /** Once pending, in-flight and already admitted files reach the limit, no
      later file of the batch is admitted. */
  lemma {:induction false} AdmitStopsAtLimit(batch: seq<RawFile>, k: nat, pending: seq<UploadedFile>, inFlight: seq<ProcessingEntry>)
    requires k <= |batch|
    requires |pending| + |inFlight| + |Admit(batch[..k], pending, inFlight, 0).accepted| >= MaxFiles
    ensures Admit(batch, pending, inFlight, 0).accepted == Admit(batch[..k], pending, inFlight, 0).accepted
  {
    assert batch == batch[..k] + batch[k..];
    AdmitSplit(batch[..k], batch[k..], pending, inFlight, 0);
  }

  /** Below the limit nothing admissible is turned away: when all the
      admissible files fit, exactly they are admitted, in order. */
  lemma {:induction false} AdmitAllWhenRoom(batch: seq<RawFile>, pending: seq<UploadedFile>,
                                            inFlight: seq<ProcessingEntry>, chosen: nat)
    requires |pending| + |inFlight| + chosen + |Admissibles(batch, pending, inFlight)| <= MaxFiles
    ensures Admit(batch, pending, inFlight, chosen).accepted == Admissibles(batch, pending, inFlight)
    decreases |batch|
  {
    if batch != [] {
      var f := batch[0];
      if Admissible(f, pending, inFlight) {
        AdmitAllWhenRoom(batch[1..], pending, inFlight, chosen + 1);
      } else if |pending| + |inFlight| + chosen < MaxFiles {
        AdmitAllWhenRoom(batch[1..], pending, inFlight, chosen);
      } else {
        AdmissiblesEmpty(batch[1..], pending, inFlight, chosen);
      }
    }
  }

  lemma {:induction false} AdmissiblesEmpty(batch: seq<RawFile>, pending: seq<UploadedFile>, inFlight: seq<ProcessingEntry>, chosen: nat)
    requires Admissibles(batch, pending, inFlight) == []
    ensures Admit(batch, pending, inFlight, chosen).accepted == []
  {
    var r := Admit(batch, pending, inFlight, chosen).accepted;
    AdmitSubseq(batch, pending, inFlight, chosen);
    if r != [] {
      SubseqMember(r, batch, 0);
    }
  }

  lemma {:induction false} SubseqMember<T>(a: seq<T>, b: seq<T>, i: nat)
    requires Seqs.Subseq(a, b) && i < |a|
    ensures exists j :: 0 <= j < |b| && b[j] == a[i]
    decreases |b|
  {
    if a[0] == b[0] && Seqs.Subseq(a[1..], b[1..]) {
      if i > 0 {
        SubseqMember(a[1..], b[1..], i - 1);
        var j :| 0 <= j < |b[1..]| && b[1..][j] == a[1..][i - 1];
        assert b[j + 1] == a[i];
      } else {
        assert b[0] == a[0];
      }
    } else {
      SubseqMember(a, b[1..], i);
      var j :| 0 <= j < |b[1..]| && b[1..][j] == a[i];
      assert b[j + 1] == a[i];
    }
  }

  /** A duplicate is skipped without using up any of the count. */
  lemma {:induction false} DuplicateSkippedSilently(f: RawFile, rest: seq<RawFile>, pending: seq<UploadedFile>,
                                 inFlight: seq<ProcessingEntry>, chosen: nat)
    requires |pending| + |inFlight| + chosen < MaxFiles && f.size <= MaxFileBytes
    requires NameTaken(f.name, pending) || IdInFlight(TaskId(f), inFlight)
    ensures Admit([f] + rest, pending, inFlight, chosen) == Admit(rest, pending, inFlight, chosen)
  {
    assert ([f] + rest)[1..] == rest;
  }

  /** The size cap is inclusive: a lone file of exactly 30 MiB is admitted. */
  lemma {:induction false} ExactCapAdmitted(f: RawFile)
    requires f.size == MaxFileBytes
    ensures Admit([f], [], [], 0).accepted == [f]
  {
  }

  /** The result of `handleFileChange`: the new state, the tasks it starts
      and the alerts raised while admitting. */
  datatype Selection = Selection(state: UploadState, tasks: seq<Task>, notices: seq<Notice>)

  function TaskOf(f: RawFile): Task {
    Task(f, TaskId(f))
  }

  function EntryOf(t: Task): ProcessingEntry {
    ProcessingEntry(t.id, t.file.name)
  }

  /** `handleFileChange`: admit, then register one in-flight entry per
      admitted file; with nothing admitted the state is left as it was. */
  function SelectFiles(s: UploadState, batch: seq<RawFile>): (r: Selection)
    ensures r.state.files == s.files
    ensures r.notices == Admit(batch, s.files, s.processing, 0).notices
    ensures |r.tasks| == |Admit(batch, s.files, s.processing, 0).accepted|
    ensures forall i :: 0 <= i < |r.tasks| ==>
      r.tasks[i].file == Admit(batch, s.files, s.processing, 0).accepted[i]
      && r.tasks[i].id == TaskId(r.tasks[i].file)
    ensures |r.state.processing| == |s.processing| + |r.tasks|
    ensures r.state.processing[..|s.processing|] == s.processing
    ensures forall i :: 0 <= i < |r.tasks| ==> r.state.processing[|s.processing| + i] == EntryOf(r.tasks[i])
  {
    var a := Admit(batch, s.files, s.processing, 0);
    if a.accepted == [] then Selection(s, [], a.notices)
    else
      var tasks := seq(|a.accepted|, i requires 0 <= i < |a.accepted| => TaskOf(a.accepted[i]));
      var entries := seq(|tasks|, i requires 0 <= i < |tasks| => EntryOf(tasks[i]));
      Selection(s.(processing := s.processing + entries), tasks, a.notices)
  }

  /** The alerts of one selection are those `NoticesOf` describes for the
      batch against the current pending and in-flight files. */
  lemma {:induction false} SelectNotices(s: UploadState, batch: seq<RawFile>)
    ensures SelectFiles(s, batch).notices == NoticesOf(batch, s.files, s.processing, 0)
  {
    AdmitNotices(batch, s.files, s.processing, 0);
  }

  /** Selecting never lets pending and in-flight files exceed the limit when
      they were within it. */
  lemma {:induction false} SelectKeepsLimit(s: UploadState, batch: seq<RawFile>)
    requires |s.files| + |s.processing| <= MaxFiles
    ensures var t := SelectFiles(s, batch).state; |t.files| + |t.processing| <= MaxFiles
  {
  }

  /** The entries whose id is not `id`, in order: `prev.filter(p => p.id !== id)`. */
  function RemoveEntries(entries: seq<ProcessingEntry>, id: string): (r: seq<ProcessingEntry>)
    ensures Seqs.Subseq(r, entries) && |r| <= |entries|
    ensures forall i :: 0 <= i < |r| ==> r[i].id != id
    ensures forall i :: 0 <= i < |entries| && entries[i].id != id ==> entries[i] in r
    ensures IdInFlight(id, entries) ==> |r| < |entries|
    ensures !IdInFlight(id, entries) ==> r == entries
  {
    if entries == [] then []
    else
      var rest := RemoveEntries(entries[1..], id);
      InFlightCons(entries, id);
      if entries[0].id == id then rest
      else
        assert entries == [entries[0]] + entries[1..];
        [entries[0]] + rest
  }

  lemma {:induction false} InFlightCons(entries: seq<ProcessingEntry>, id: string)
    requires entries != []
    ensures IdInFlight(id, entries) <==> entries[0].id == id || IdInFlight(id, entries[1..])
  {
    if IdInFlight(id, entries) && entries[0].id != id {
      var i :| 0 <= i < |entries| && entries[i].id == id;
      assert entries[1..][i - 1].id == id;
    }
    if IdInFlight(id, entries[1..]) {
      var i :| 0 <= i < |entries[1..]| && entries[1..][i].id == id;
      assert entries[i + 1].id == id;
    }
  }

  /** `RemoveEntries` drops every copy of an entry with the id and keeps
      every copy of every other entry. */
  lemma {:induction false} RemoveEntriesCount(entries: seq<ProcessingEntry>, id: string)
    ensures forall e :: multiset(RemoveEntries(entries, id))[e] == (if e.id == id then 0 else multiset(entries)[e])
    decreases |entries|
  {
    if entries != [] {
      RemoveEntriesCount(entries[1..], id);
      assert entries == [entries[0]] + entries[1..];
      if entries[0].id != id {
        assert RemoveEntries(entries, id) == [entries[0]] + RemoveEntries(entries[1..], id);
      }
    }
  }

  datatype Settlement = Settlement(state: UploadState, alert: Option<Notice>)

  /** A task whose extraction has finished, with what it produced. The
      outcome depends only on the file, never on the upload state. */
  datatype Finished = Finished(task: Task, out: Processed)

  function Finish(t: Task): Finished {
    Finished(t, ProcessFile(t.file))
  }

  /** The record a finished task publishes, if any. */
  function Outcome(d: Finished): seq<UploadedFile> {
    if d.out.Produced? then [d.out.file] else []
  }

  /** The `finally` and `then` of one task: a produced record is appended to
      the pending files, a rejection is alerted, and every in-flight entry
      with the task's id is removed in all cases. */
  function Apply(s: UploadState, d: Finished): (r: Settlement)
    ensures |s.files| <= |r.state.files| <= |s.files| + 1
    ensures r.state.files[..|s.files|] == s.files
    ensures d.out.Produced? <==> |r.state.files| == |s.files| + 1
    ensures d.out.Produced? ==> r.state.files[|s.files|] == d.out.file
    ensures d.out.Rejected? ==> r.alert == Some(ProcessingFailed(d.task.file.name))
    ensures d.out.Produced? ==> r.alert == None
    ensures d.out.NoRecord? ==> r.alert == d.out.alert
    ensures forall i :: 0 <= i < |r.state.processing| ==> r.state.processing[i].id != d.task.id
    ensures forall e :: multiset(r.state.processing)[e] == (if e.id == d.task.id then 0 else multiset(s.processing)[e])
  {
    RemoveEntriesCount(s.processing, d.task.id);
    var files := if d.out.Produced? then s.files + [d.out.file] else s.files;
    var alert := match d.out
      case Produced(_) => None
      case NoRecord(a) => a
      case Rejected => Some(ProcessingFailed(d.task.file.name));
    Settlement(UploadState(files, RemoveEntries(s.processing, d.task.id)), alert)
  }

  /** The settlement of one task: its file's extraction, then `Apply`. */
  function Settle(s: UploadState, t: Task): (r: Settlement)
    ensures ProcessFile(t.file).Produced? ==> r.state.files == s.files + [ProcessFile(t.file).file]
    ensures !ProcessFile(t.file).Produced? ==> r.state.files == s.files
    ensures forall i :: 0 <= i < |r.state.processing| ==> r.state.processing[i].id != t.id
    ensures ProcessFile(t.file).Rejected? ==> r.alert == Some(ProcessingFailed(t.file.name))
    ensures ProcessFile(t.file).NoRecord? ==> r.alert == ProcessFile(t.file).alert
    ensures ProcessFile(t.file).Produced? ==> r.alert == None
  {
    Apply(s, Finish(t))
  }

  /** A settlement whose entry is still listed never increases the number
      of pending plus in-flight files. */
  lemma {:induction false} SettleNeverGrows(s: UploadState, d: Finished)
    requires IdInFlight(d.task.id, s.processing)
    ensures var u := Apply(s, d).state; |u.files| + |u.processing| <= |s.files| + |s.processing|
  {
  }

  /** Finished tasks settled one after another, in the order given. */
  function SettleAll(s: UploadState, done: seq<Finished>): UploadState
    decreases |done|
  {
    if done == [] then s else SettleAll(Apply(s, done[0]).state, done[1..])
  }

  /** The records a sequence of finished tasks publishes, in order. */
  function Published(done: seq<Finished>): seq<UploadedFile> {
    if done == [] then [] else Outcome(done[0]) + Published(done[1..])
  }

  function TaskIds(done: seq<Finished>): set<string> {
    set i | 0 <= i < |done| :: done[i].task.id
  }

  /** The entries whose id is in none of `ids`. */
  function KeepUnsettled(entries: seq<ProcessingEntry>, ids: set<string>): seq<ProcessingEntry> {
    if entries == [] then []
    else
      var head := if entries[0].id in ids then [] else [entries[0]];
      head + KeepUnsettled(entries[1..], ids)
  }

  lemma {:induction false} RemoveThenKeep(entries: seq<ProcessingEntry>, id: string, ids: set<string>)
    ensures KeepUnsettled(RemoveEntries(entries, id), ids) == KeepUnsettled(entries, ids + {id})
  {
    if entries != [] {
      RemoveThenKeep(entries[1..], id, ids);
    }
  }

  lemma {:induction false} KeepNothing(entries: seq<ProcessingEntry>)
    ensures KeepUnsettled(entries, {}) == entries
  {
    if entries != [] {
      KeepNothing(entries[1..]);
      assert [entries[0]] + entries[1..] == entries;
    }
  }

  lemma {:induction false} TaskIdsCons(done: seq<Finished>)
    requires done != []
    ensures TaskIds(done) == TaskIds(done[1..]) + {done[0].task.id}
  {
    forall x | x in TaskIds(done) ensures x in TaskIds(done[1..]) + {done[0].task.id} {
      var i :| 0 <= i < |done| && done[i].task.id == x;
      if i > 0 {
        assert done[1..][i - 1].task.id == x;
      }
    }
    forall x | x in TaskIds(done[1..]) ensures x in TaskIds(done) {
      var i :| 0 <= i < |done[1..]| && done[1..][i].task.id == x;
      assert done[i + 1].task.id == x;
    }
  }

  lemma {:induction false} ApplyFiles(s: UploadState, d: Finished)
    ensures Apply(s, d).state.files == s.files + Outcome(d)
    ensures Apply(s, d).state.processing == RemoveEntries(s.processing, d.task.id)
  {
  }

  /** Settling finished tasks appends, after the files already pending,
      exactly the records they produce, and leaves listed exactly the
      entries of other tasks. */
  lemma {:induction false} SettleAllSpec(s: UploadState, done: seq<Finished>)
    ensures SettleAll(s, done).files == s.files + Published(done)
    ensures SettleAll(s, done).processing == KeepUnsettled(s.processing, TaskIds(done))
  {
    SettleAllFiles(s, done);
    SettleAllProcessing(s, done);
  }

  lemma {:induction false} SettleAllFiles(s: UploadState, done: seq<Finished>)
    ensures SettleAll(s, done).files == s.files + Published(done)
    decreases |done|
  {
    if done != [] {
      var s1 := Apply(s, done[0]).state;
      ApplyFiles(s, done[0]);
      SettleAllFiles(s1, done[1..]);
      assert SettleAll(s, done) == SettleAll(s1, done[1..]);
      assert Published(done) == Outcome(done[0]) + Published(done[1..]);
      Seqs.AppendAssoc(s.files, Outcome(done[0]), Published(done[1..]));
    }
  }

  lemma {:induction false} SettleAllProcessing(s: UploadState, done: seq<Finished>)
    ensures SettleAll(s, done).processing == KeepUnsettled(s.processing, TaskIds(done))
    decreases |done|
  {
    if done == [] {
      KeepNothing(s.processing);
      assert TaskIds(done) == {};
    } else {
      var s1 := Apply(s, done[0]).state;
      ApplyFiles(s, done[0]);
      SettleAllProcessing(s1, done[1..]);
      assert SettleAll(s, done) == SettleAll(s1, done[1..]);
      RemoveThenKeep(s.processing, done[0].task.id, TaskIds(done[1..]));
      TaskIdsCons(done);
    }
  }

  lemma {:induction false} PublishedAppend(a: seq<Finished>, b: seq<Finished>)
    ensures Published(a + b) == Published(a) + Published(b)
  {
    if a == [] {
      assert a + b == b;
    } else {
      assert (a + b)[1..] == a[1..] + b;
      PublishedAppend(a[1..], b);
    }
  }

  /** The records published depend only on which tasks finish, not on the
      order in which they do. */
  lemma {:induction false} PublishedPermutation(a: seq<Finished>, b: seq<Finished>)
    requires multiset(a) == multiset(b)
    ensures multiset(Published(a)) == multiset(Published(b))
    decreases |a|
  {
    if a != [] {
      var d := a[0];
      assert d in multiset(b);
      var j :| 0 <= j < |b| && b[j] == d;
      var b' := b[..j] + b[j + 1..];
      assert b == b[..j] + [d] + b[j + 1..];
      assert a == [d] + a[1..];
      assert multiset(b) == multiset(b[..j]) + multiset{d} + multiset(b[j + 1..]);
      assert multiset(b') == multiset(b[..j]) + multiset(b[j + 1..]);
      assert multiset(a[1..]) == multiset(a) - multiset{d};
      PublishedPermutation(a[1..], b');
      PublishedAppend(b[..j] + [d], b[j + 1..]);
      PublishedAppend(b[..j], [d]);
      PublishedAppend(b[..j], b[j + 1..]);
      PublishedAppend([d], a[1..]);
    }
  }

  /** Completion order does not matter: settling the same finished tasks in
      any order leaves the same pending records (up to order) and the same
      in-flight entries. */
  lemma {:induction false} SettleOrderIndependent(s: UploadState, a: seq<Finished>, b: seq<Finished>)
    requires multiset(a) == multiset(b)
    ensures multiset(SettleAll(s, a).files) == multiset(SettleAll(s, b).files)
    ensures SettleAll(s, a).processing == SettleAll(s, b).processing
  {
    assert multiset(SettleAll(s, a).files) == multiset(SettleAll(s, b).files) by {
      SettleAllSpec(s, a);
      SettleAllSpec(s, b);
      PublishedPermutation(a, b);
    }
    assert TaskIds(a) == TaskIds(b) by {
      forall x | x in TaskIds(a) ensures x in TaskIds(b) {
        var i :| 0 <= i < |a| && a[i].task.id == x;
        assert a[i] in multiset(b);
      }
      forall x | x in TaskIds(b) ensures x in TaskIds(a) {
        var i :| 0 <= i < |b| && b[i].task.id == x;
        assert b[i] in multiset(a);
      }
    }
    SettleAllSpec(s, a);
    SettleAllSpec(s, b);
  }

  /** Choosing the same file again while its task is in flight admits
      nothing and changes nothing. */
  lemma {:induction false} ReselectWhileInFlight(s: UploadState, f: RawFile)
    requires SelectFiles(s, [f]).tasks != []
    ensures var s1 := SelectFiles(s, [f]).state;
      SelectFiles(s1, [f]).tasks == [] && SelectFiles(s1, [f]).state == s1
  {
    var s1 := SelectFiles(s, [f]).state;
    var t := SelectFiles(s, [f]).tasks[0];
    assert t.file == f by {
      var acc := Admit([f], s.files, s.processing, 0).accepted;
      AdmitSubseq([f], s.files, s.processing, 0);
      SubseqMember(acc, [f], 0);
    }
    assert IdInFlight(TaskId(f), s1.processing) by {
      assert s1.processing[|s.processing|] == EntryOf(t);
    }
    AdmitCons([f], s1.files, s1.processing, 0);
  }

  /** Once its record is pending, choosing a file of the same name again
      admits nothing. */
  lemma {:induction false} ReselectAfterPublish(s: UploadState, t: Task, f: RawFile)
    requires ProcessFile(t.file).Produced? && f.name == t.file.name
    ensures SelectFiles(Settle(s, t).state, [f]).tasks == []
  {
    var u := Settle(s, t).state;
    assert u.files[|u.files| - 1].name == f.name;
    assert NameTaken(f.name, u.files);
    AdmitCons([f], u.files, u.processing, 0);
  }

  /** `files.filter((_, i) => i !== index)`. */
  function RemoveFile<T>(files: seq<T>, index: int): (r: seq<T>)
    ensures 0 <= index < |files| ==> |r| == |files| - 1
    ensures !(0 <= index < |files|) ==> r == files
    ensures forall j :: 0 <= j < |r| && (j < index || index < 0) ==> r[j] == files[j]
    ensures forall j :: 0 <= index <= j < |r| ==> r[j] == files[j + 1]
    decreases |files|
  {
    if files == [] then []
    else
      var rest := RemoveFile(files[1..], index - 1);
      if index == 0 then rest else [files[0]] + rest
  }

  /** Putting the removed file back where it was restores the list: exactly
      one entry was dropped and the others kept their order. */
  lemma {:induction false} RemoveFileReinsert<T>(files: seq<T>, index: int)
    requires 0 <= index < |files|
    ensures var r := RemoveFile(files, index); r[..index] + [files[index]] + r[index..] == files
  {
    var r := RemoveFile(files, index);
    var back := r[..index] + [files[index]] + r[index..];
    assert |back| == |files|;
    forall k | 0 <= k < |files| ensures back[k] == files[k] {
      if k < index {
        assert back[k] == r[k];
      } else if k > index {
        assert back[k] == r[k - 1];
      }
    }
  }
}
