/** The rotating diagnostic log, on a disk whose every operation may fail. */
module LogRotation {
  import opened Basics

  const MAX_FILE_BYTES := 4 * 1024 * 1024

  type Entry = string

  /** File `0` is `backend.log`, file `n` is `backend.log.n`; a file is the sequence of entries appended to it. */
  type Files = fs: seq<Option<seq<Entry>>> | |fs| == 4 witness [None, None, None, None]

  datatype Failure = MkdirFailed | RemoveFailed | RenameFailed(n: nat) | OpenFailed | WriteFailed | CloseFailed

  /** Which operations of one write the system refuses. */
  datatype Faults = Faults(
    mkdir: bool, stat: bool, remove: bool, rename: set<nat>, open: bool, write: bool, close: bool)

  function Content(file: Option<seq<Entry>>): seq<Entry> {
    if file.Some? then file.value else []
  }

  function Size(entries: seq<Entry>): nat {
    if entries == [] then 0 else Size(entries[..|entries| - 1]) + |entries[|entries| - 1]|
  }

  /** The existing files, oldest first. */
  function Reading(fs: Files): seq<Entry> {
    Content(fs[3]) + Content(fs[2]) + Content(fs[1]) + Content(fs[0])
  }

  function EffectiveLimit(limit: int): nat {
    if limit <= 0 then MAX_FILE_BYTES else limit
  }

  /** The entry that is written for a text: redacted, and cut to the limit with a final line break. */
  function Clean(text: string, limit: int, redact: string -> string): Entry {
    var clean := redact(text);
    var max := EffectiveLimit(limit);
    if |clean| > max then clean[..max][max - 1 := '\n'] else clean
  }

  // ---------- Rotation ----------

  /** `os.Remove`: a missing file is not an error. */
  function Remove(fs: Files, n: nat, refused: bool): (Files, bool)
    requires n < 4
  {
    if fs[n].None? then (fs, true) else if refused then (fs, false) else (fs[n := None], true)
  }

  /** `os.Rename` to the next number, replacing what is there: a missing file is not an error. */
  function Rename(fs: Files, n: nat, refused: bool): (Files, bool)
    requires n < 3
  {
    if fs[n].None? then (fs, true) else if refused then (fs, false) else (fs[n + 1 := fs[n]][n := None], true)
  }

  /** The renames of files `n - 1` down to `0`. */
  function RenameDown(fs: Files, n: nat, refused: set<nat>): (Files, Option<Failure>)
    requires n <= 3
    decreases n
  {
    if n == 0 then (fs, None)
    else
      var (next, ok) := Rename(fs, n - 1, n - 1 in refused);
      if ok then RenameDown(next, n - 1, refused) else (next, Some(RenameFailed(n - 1)))
  }

  function Rotated(fs: Files, faults: Faults): (Files, Option<Failure>) {
    var (next, ok) := Remove(fs, 3, faults.remove);
    if ok then RenameDown(next, 3, faults.rename) else (next, Some(RemoveFailed))
  }

  /** A rename into a free place keeps the reading, and frees the place it came from. */
  lemma RenameReading(fs: Files, n: nat, refused: bool)
    requires n < 3 && fs[n + 1].None?
    ensures var (next, ok) := Rename(fs, n, refused); Reading(next) == Reading(fs) && (ok ==> next[n].None?)
  {
    var next := Rename(fs, n, refused).0;
    assert Content(next[n + 1]) + Content(next[n]) == Content(fs[n + 1]) + Content(fs[n]);
    if n == 0 {
      assert next[3] == fs[3] && next[2] == fs[2];
    } else if n == 1 {
      assert next[3] == fs[3] && next[0] == fs[0];
    } else {
      assert next[1] == fs[1] && next[0] == fs[0];
    }
  }

  lemma {:induction false} RenameDownReading(fs: Files, n: nat, refused: set<nat>)
    requires n <= 3 && fs[n].None?
    ensures Reading(RenameDown(fs, n, refused).0) == Reading(fs)
    ensures RenameDown(fs, n, refused).1.None? ==> RenameDown(fs, n, refused).0[0].None?
    decreases n
  {
    hide Reading, Rename;
    if n > 0 {
      RenameReading(fs, n - 1, n - 1 in refused);
      var (next, ok) := Rename(fs, n - 1, n - 1 in refused);
      if ok {
        RenameDownReading(next, n - 1, refused);
      }
    }
  }

  /** However a rotation ends, it loses the oldest file at most, and keeps the order of all other entries. */
  lemma {:induction false} RotatedReading(fs: Files, faults: Faults)
    ensures var (next, failure) := Rotated(fs, faults);
            && Reading(next) == (if failure == Some(RemoveFailed) then Reading(fs) else Reading(fs)[|Content(fs[3])|..])
            && (failure.None? ==> next[0].None?)
  {
    var (next, ok) := Remove(fs, 3, faults.remove);
    if ok {
      assert Reading(fs)[|Content(fs[3])|..] == Content(fs[2]) + Content(fs[1]) + Content(fs[0]);
      assert Reading(next) == Content(fs[2]) + Content(fs[1]) + Content(fs[0]);
      hide Reading;
      RenameDownReading(next, 3, faults.rename);
    }
  }

  // ---------- One write ----------

  datatype Written = Written(files: Files, appended: bool, failure: Option<Failure>)

  /** Opening for append, writing and closing; a refused close still leaves the entry in the file. */
  function Append(fs: Files, entry: Entry, faults: Faults): Written {
    if faults.open then Written(fs, false, Some(OpenFailed))
    else
      var created := fs[0 := Some(Content(fs[0]))];
      if faults.write then Written(created, false, Some(WriteFailed))
      else
        Written(created[0 := Some(Content(fs[0]) + [entry])], true, if faults.close then Some(CloseFailed) else None)
  }

  /** The size check that may call for a rotation; it is skipped when the file cannot be inspected. */
  predicate NeedsRotation(fs: Files, entry: Entry, limit: nat, faults: Faults) {
    fs[0].Some? && !faults.stat && Size(fs[0].value) + |entry| > limit
  }

  function Attempt(fs: Files, entry: Entry, limit: nat, faults: Faults): Written {
    if faults.mkdir then Written(fs, false, Some(MkdirFailed))
    else
      var (ready, failure) := if NeedsRotation(fs, entry, limit, faults) then Rotated(fs, faults) else (fs, None);
      if failure.Some? then Written(ready, false, failure) else Append(ready, entry, faults)
  }

  /** `suffix` is what remains of `all` after dropping some entries from the front. */
  predicate Suffix(suffix: seq<Entry>, all: seq<Entry>) {
    |suffix| <= |all| && all[|all| - |suffix|..] == suffix
  }

  lemma SuffixOfSuffix(a: seq<Entry>, b: seq<Entry>, c: seq<Entry>)
    requires Suffix(a, b) && Suffix(b, c)
    ensures Suffix(a, c)
  {
    assert a == c[|c| - |b|..][|b| - |a|..] == c[|c| - |a|..];
  }

  lemma SuffixSnoc(a: seq<Entry>, b: seq<Entry>, e: Entry)
    requires Suffix(a, b)
    ensures Suffix(a + [e], b + [e])
  {
    assert (b + [e])[|b| - |a|..] == b[|b| - |a|..] + [e];
  }

  lemma DropsFront(a: seq<Entry>, n: nat, more: seq<Entry>)
    requires n <= |a|
    ensures Suffix(a[n..] + more, a + more)
  {
    assert (a + more)[n..] == a[n..] + more;
  }

  lemma AppendReading(fs: Files, entry: Entry, faults: Faults)
    ensures var w := Append(fs, entry, faults);
            && Reading(w.files) == Reading(fs) + (if w.appended then [entry] else [])
            && (w.failure.None? ==> w.appended)
  {
  }

  /** The entries a write gives up: those of the oldest file, when a rotation gets to remove it. */
  function Dropped(fs: Files, entry: Entry, limit: nat, faults: Faults): nat {
    if !faults.mkdir && NeedsRotation(fs, entry, limit, faults) && !faults.remove then |Content(fs[3])| else 0
  }

  /** After a write the files read as before, less the dropped oldest entries, and with the entry if it was appended. */
  lemma {:induction false} WriteReading(fs: Files, entry: Entry, limit: nat, faults: Faults)
    ensures Dropped(fs, entry, limit, faults) <= |Reading(fs)|
    ensures var w := Attempt(fs, entry, limit, faults);
            && Reading(w.files) ==
                 Reading(fs)[Dropped(fs, entry, limit, faults)..] + (if w.appended then [entry] else [])
            && (w.failure.None? ==> w.appended)
  {
    hide Reading, Rotated, Append, NeedsRotation, Content;
    ContentWithin(fs);
    if !faults.mkdir && NeedsRotation(fs, entry, limit, faults) {
      RotatedReading(fs, faults);
      RemoveRefused(fs, faults);
      AppendReading(Rotated(fs, faults).0, entry, faults);
    } else {
      AppendReading(fs, entry, faults);
    }
  }

  lemma RemoveRefused(fs: Files, faults: Faults)
    ensures Rotated(fs, faults).1 == Some(RemoveFailed) <==> fs[3].Some? && faults.remove
    ensures fs[3].None? ==> Content(fs[3]) == []
  {
    hide RenameDown;
    RenameFailsAs(Remove(fs, 3, faults.remove).0, 3, faults.rename);
  }

  lemma {:induction false} RenameFailsAs(fs: Files, n: nat, refused: set<nat>)
    requires n <= 3
    ensures RenameDown(fs, n, refused).1 != Some(RemoveFailed)
    decreases n
  {
    if n > 0 {
      var (next, ok) := Rename(fs, n - 1, n - 1 in refused);
      RenameFailsAs(next, n - 1, refused);
    }
  }

  lemma ContentWithin(fs: Files)
    ensures |Content(fs[3])| <= |Reading(fs)|
  {
  }

  // ---------- All runs ----------

  /** One call of `Write`: the text given, and the operations the system refuses meanwhile. */
  datatype Call = Call(text: string, faults: Faults)

  /** The files after a run of calls, and every entry ever appended. */
  function Run(fs: Files, calls: seq<Call>, limit: int, redact: string -> string): (Files, seq<Entry>) {
    if calls == [] then (fs, Reading(fs))
    else
      var (before, history) := Run(fs, calls[..|calls| - 1], limit, redact);
      var call := calls[|calls| - 1];
      var entry := Clean(call.text, limit, redact);
      var w := Attempt(before, entry, EffectiveLimit(limit), call.faults);
      (w.files, if w.appended then history + [entry] else history)
  }

  /** Whatever fails, the files in order always read as a suffix of the history of appended entries. */
  lemma {:induction false} ReadingIsSuffixOfHistory(fs: Files, calls: seq<Call>, limit: int, redact: string -> string)
    ensures var (files, history) := Run(fs, calls, limit, redact); Suffix(Reading(files), history)
  {
    hide Reading, Attempt, Clean, EffectiveLimit, Dropped;
    if calls != [] {
      var front, call := calls[..|calls| - 1], calls[|calls| - 1];
      ReadingIsSuffixOfHistory(fs, front, limit, redact);
      var (before, history) := Run(fs, front, limit, redact);
      var entry := Clean(call.text, limit, redact);
      WriteReading(before, entry, EffectiveLimit(limit), call.faults);
      var w := Attempt(before, entry, EffectiveLimit(limit), call.faults);
      SuffixSnoc(Reading(before), history, entry);
      DropsFront(Reading(before), Dropped(before, entry, EffectiveLimit(limit), call.faults),
                 if w.appended then [entry] else []);
      assert Reading(before) + [] == Reading(before);
      var grown := if w.appended then history + [entry] else history;
      SuffixOfSuffix(Reading(w.files), Reading(before) + (if w.appended then [entry] else []), grown);
    }
  }

  // ---------- Sizes ----------

  predicate Bounded(fs: Files, limit: nat) {
    forall n :: 0 <= n < 4 ==> Size(Content(fs[n])) <= limit
  }

  lemma {:induction false} RenameDownBounded(fs: Files, n: nat, refused: set<nat>, limit: nat)
    requires n <= 3 && Bounded(fs, limit)
    ensures Bounded(RenameDown(fs, n, refused).0, limit)
    decreases n
  {
    if n > 0 {
      var (next, ok) := Rename(fs, n - 1, n - 1 in refused);
      assert Bounded(next, limit);
      if ok {
        RenameDownBounded(next, n - 1, refused, limit);
      }
    }
  }

  lemma SizeSnoc(entries: seq<Entry>, e: Entry)
    ensures Size(entries + [e]) == Size(entries) + |e|
  {
    assert (entries + [e])[..|entries|] == entries;
  }

  /** An entry that no check has admitted: the file exists, could not be inspected, and has no room. */
  predicate Unchecked(fs: Files, entry: Entry, limit: nat, faults: Faults) {
    fs[0].Some? && faults.stat && Size(fs[0].value) + |entry| > limit
  }

  lemma AppendBoundedIff(fs: Files, entry: Entry, limit: nat, faults: Faults)
    requires Bounded(fs, limit)
    ensures var w := Append(fs, entry, faults);
            Bounded(w.files, limit) <==> (w.appended ==> Size(Content(fs[0])) + |entry| <= limit)
  {
    hide Size;
    SizeSnoc(Content(fs[0]), entry);
    var w := Append(fs, entry, faults);
    assert forall n :: 0 < n < 4 ==> w.files[n] == fs[n];
    assert Content(w.files[0]) == if w.appended then Content(fs[0]) + [entry] else Content(fs[0]);
  }

  lemma RotatedBounded(fs: Files, faults: Faults, limit: nat)
    requires Bounded(fs, limit)
    ensures Bounded(Rotated(fs, faults).0, limit)
  {
    hide RenameDown;
    EmptySize();
    var (next, ok) := Remove(fs, 3, faults.remove);
    assert Bounded(next, limit);
    if ok {
      RenameDownBounded(next, 3, faults.rename, limit);
    }
  }

  /** A write that would get to append an entry that no check has admitted. */
  predicate Overfills(fs: Files, entry: Entry, limit: nat, faults: Faults) {
    !faults.mkdir && !faults.open && !faults.write && Unchecked(fs, entry, limit, faults)
  }

  /** A write keeps every file within the limit, unless it appends an entry without room that it could not check. */
  lemma {:induction false} WriteBoundedIff(fs: Files, entry: Entry, limit: nat, faults: Faults)
    requires Bounded(fs, limit) && |entry| <= limit
    ensures Bounded(Attempt(fs, entry, limit, faults).files, limit) <==> !Overfills(fs, entry, limit, faults)
  {
    hide Reading, Size, Rotated, Bounded;
    EmptySize();
    if NeedsRotation(fs, entry, limit, faults) {
      RotatedBounded(fs, faults, limit);
      RotatedReading(fs, faults);
      AppendBoundedIff(Rotated(fs, faults).0, entry, limit, faults);
    } else {
      AppendBoundedIff(fs, entry, limit, faults);
    }
  }

  lemma EmptySize()
    ensures Size([]) == 0
  {
  }

  /** The state before call `k` of a run. */
  function Before(fs: Files, calls: seq<Call>, k: nat, limit: int, redact: string -> string): Files
    requires k <= |calls|
  {
    Run(fs, calls[..k], limit, redact).0
  }

  /** Call `k` of a run overfills the state it finds. */
  predicate OverfillsAt(fs: Files, calls: seq<Call>, k: nat, limit: int, redact: string -> string)
    requires k < |calls|
  {
    Overfills(Before(fs, calls, k, limit, redact), Clean(calls[k].text, limit, redact), EffectiveLimit(limit),
              calls[k].faults)
  }

  lemma BeforeNext(fs: Files, calls: seq<Call>, k: nat, limit: int, redact: string -> string)
    requires k < |calls|
    ensures Before(fs, calls, k + 1, limit, redact) ==
              Attempt(Before(fs, calls, k, limit, redact), Clean(calls[k].text, limit, redact), EffectiveLimit(limit),
                      calls[k].faults).files
  {
    hide Attempt, Clean, Run;
    assert calls[..k + 1] == calls[..k] + [calls[k]];
    RunSnoc(fs, calls[..k], calls[k], limit, redact);
  }

  lemma CleanFits(text: string, limit: int, redact: string -> string)
    ensures |Clean(text, limit, redact)| <= EffectiveLimit(limit)
  {
  }

  /** Up to call `n`: every state is bounded iff the first is and no call overfills its state. */
  lemma {:induction false} BoundedUpTo(fs: Files, calls: seq<Call>, n: nat, limit: int, redact: string -> string)
    requires n <= |calls|
    ensures (forall k :: 0 <= k <= n ==> Bounded(Before(fs, calls, k, limit, redact), EffectiveLimit(limit)))
       <==> Bounded(fs, EffectiveLimit(limit)) && forall k :: 0 <= k < n ==> !OverfillsAt(fs, calls, k, limit, redact)
  {
    hide Bounded, Before, OverfillsAt, EffectiveLimit;
    if n == 0 {
      NothingBefore(fs, calls, limit, redact);
    } else {
      BoundedUpTo(fs, calls, n - 1, limit, redact);
      if Bounded(Before(fs, calls, n - 1, limit, redact), EffectiveLimit(limit)) {
        BoundedNext(fs, calls, n - 1, limit, redact);
      }
    }
  }

  lemma NothingBefore(fs: Files, calls: seq<Call>, limit: int, redact: string -> string)
    ensures Before(fs, calls, 0, limit, redact) == fs
  {
    RunNothing(fs, calls, limit, redact);
  }

  lemma BoundedNext(fs: Files, calls: seq<Call>, k: nat, limit: int, redact: string -> string)
    requires k < |calls| && Bounded(Before(fs, calls, k, limit, redact), EffectiveLimit(limit))
    ensures Bounded(Before(fs, calls, k + 1, limit, redact), EffectiveLimit(limit))
          <==> !OverfillsAt(fs, calls, k, limit, redact)
  {
    hide Bounded, Before, Clean, Overfills, Attempt, EffectiveLimit;
    BeforeNext(fs, calls, k, limit, redact);
    CleanFits(calls[k].text, limit, redact);
    WriteBoundedIff(Before(fs, calls, k, limit, redact), Clean(calls[k].text, limit, redact), EffectiveLimit(limit),
                    calls[k].faults);
  }

  /** Every state of a run is within the limit iff the first is and no call overfills the state it finds. */
  lemma {:induction false} RunBoundedIff(fs: Files, calls: seq<Call>, limit: int, redact: string -> string)
    ensures (forall k :: 0 <= k <= |calls| ==> Bounded(Before(fs, calls, k, limit, redact), EffectiveLimit(limit)))
       <==> Bounded(fs, EffectiveLimit(limit)) && forall k :: 0 <= k < |calls| ==>
             !OverfillsAt(fs, calls, k, limit, redact)
  {
    hide Bounded, Before, OverfillsAt, EffectiveLimit;
    BoundedUpTo(fs, calls, |calls|, limit, redact);
  }

  function TotalSize(fs: Files): nat {
    Size(Content(fs[3])) + Size(Content(fs[2])) + Size(Content(fs[1])) + Size(Content(fs[0]))
  }

  /** From an empty directory, without an overfilling call, everything stays within four times the limit. */
  lemma {:induction false} RunBounded(calls: seq<Call>, limit: int, redact: string -> string)
    requires forall k :: 0 <= k < |calls| ==> !OverfillsAt([None, None, None, None], calls, k, limit, redact)
    ensures var files := Run([None, None, None, None], calls, limit, redact).0;
            && Bounded(files, EffectiveLimit(limit)) && TotalSize(files) <= 4 * EffectiveLimit(limit)
  {
    hide Run, OverfillsAt, EffectiveLimit, Size;
    EmptyBounded(EffectiveLimit(limit));
    RunBoundedIff([None, None, None, None], calls, limit, redact);
    assert calls[..|calls|] == calls;
    assert Bounded(Before([None, None, None, None], calls, |calls|, limit, redact), EffectiveLimit(limit));
  }

  lemma RunSnoc(fs: Files, calls: seq<Call>, c: Call, limit: int, redact: string -> string)
    ensures Run(fs, calls + [c], limit, redact).0 ==
              Attempt(Run(fs, calls, limit, redact).0, Clean(c.text, limit, redact), EffectiveLimit(limit),
                    c.faults).files
  {
    hide Attempt, Clean, Reading;
    assert (calls + [c])[..|calls|] == calls;
  }

  /** Where inspection fails the bound does too: two entries of the full limit end up in one file. */
  lemma {:induction false} FailedInspectionBreaksBound(redact: string -> string)
    requires redact("a") == "a" && redact("b") == "b"
    ensures var no := Faults(false, false, false, {}, false, false, false);
            !Bounded(Run([None, None, None, None], [Call("a", no), Call("b", no.(stat := true))], 1, redact).0, 1)
  {
    hide Reading, Size, Bounded, Run, Rotated;
    var no := Faults(false, false, false, {}, false, false, false);
    var empty: Files := [None, None, None, None];
    var none: seq<Call> := [];
    assert none[..0] == none;
    assert Run(empty, [], 1, redact).0 == empty by { RunNothing(empty, none, 1, redact); }
    RunSnoc(empty, [], Call("a", no), 1, redact);
    RunSnoc(empty, [Call("a", no)], Call("b", no.(stat := true)), 1, redact);
    assert [] + [Call("a", no)] == [Call("a", no)];
    assert [Call("a", no)] + [Call("b", no.(stat := true))] == [Call("a", no), Call("b", no.(stat := true))];
    var one := Attempt(empty, "a", 1, no).files;
    SizeSnoc([], "a");
    EmptySize();
    EmptyBounded(1);
    WriteBoundedIff(empty, "a", 1, no);
    WriteBoundedIff(one, "b", 1, no.(stat := true));
  }

  lemma RunNothing(fs: Files, calls: seq<Call>, limit: int, redact: string -> string)
    ensures Run(fs, calls[..0], limit, redact).0 == fs
  {
  }

  lemma EmptyBounded(limit: nat)
    ensures Bounded([None, None, None, None], limit)
  {
    EmptySize();
  }

  // ---------- What a write does, in sizes and readings ----------

  /** The log exists and the entry does not fit into what is left of the limit. */
  predicate Full(fs: Files, entry: Entry, limit: nat) {
    fs[0].Some? && Size(fs[0].value) + |entry| > limit
  }

  predicate NoFault(faults: Faults) {
    faults == Faults(false, false, false, {}, false, false, false)
  }

  /** Nothing that a rotation has to move or remove is refused. */
  predicate RotationWorks(fs: Files, faults: Faults) {
    && (fs[3].Some? ==> !faults.remove)
    && forall n :: 0 <= n < 3 && fs[n].Some? ==> n !in faults.rename
  }

  lemma RenameStep(fs: Files, n: nat, refused: bool)
    requires n < 3 && fs[n + 1].None?
    ensures Rename(fs, n, refused).1 <==> fs[n].None? || !refused
    ensures Rename(fs, n, refused).1 ==> Rename(fs, n, refused).0 == fs[n + 1 := fs[n]][n := None]
  {
    if fs[n].None? {
      assert fs == fs[n + 1 := fs[n]][n := None];
    }
  }

  /** A rotation succeeds iff nothing it has to move is refused, and then every file has moved up by one. */
  lemma {:induction false} RotatedShifts(fs: Files, faults: Faults)
    ensures Rotated(fs, faults).1.None? <==> RotationWorks(fs, faults)
    ensures RotationWorks(fs, faults) ==> Rotated(fs, faults).0 == [None] + fs[..3]
  {
    hide Rename;
    var (a, removed) := Remove(fs, 3, faults.remove);
    if removed {
      RenameStep(a, 2, 2 in faults.rename);
      var (b, third) := Rename(a, 2, 2 in faults.rename);
      if third {
        RenameStep(b, 1, 1 in faults.rename);
        var (c, second) := Rename(b, 1, 1 in faults.rename);
        if second {
          RenameStep(c, 0, 0 in faults.rename);
        }
      }
      hide RenameDown;
      ThreeRenames(a, faults.rename);
    }
  }

  lemma ThreeRenames(fs: Files, refused: set<nat>)
    ensures RenameDown(fs, 3, refused) ==
              var (b, third) := Rename(fs, 2, 2 in refused);
              if !third then (b, Some(RenameFailed(2)))
              else
                var (c, second) := Rename(b, 1, 1 in refused);
                if !second then (c, Some(RenameFailed(1)))
                else
                  var (d, first) := Rename(c, 0, 0 in refused);
                  if first then (d, None) else (d, Some(RenameFailed(0)))
  {
    hide Rename;
    var (b, third) := Rename(fs, 2, 2 in refused);
    if third {
      var (c, second) := Rename(b, 1, 1 in refused);
      if second {
        var (d, first) := Rename(c, 0, 0 in refused);
        assert RenameDown(d, 0, refused) == (d, None);
        assert RenameDown(c, 1, refused) == if first then (d, None) else (d, Some(RenameFailed(0)));
      }
      assert RenameDown(b, 2, refused) == if second then RenameDown(c, 1, refused) else (c, Some(RenameFailed(1)));
    }
  }

  /** While there is room no file is rotated and nothing is dropped, whatever fails. */
  lemma {:induction false} RoomKeepsAll(fs: Files, entry: Entry, limit: nat, faults: Faults)
    requires !Full(fs, entry, limit) || faults.stat
    ensures var w := Attempt(fs, entry, limit, faults);
            && w.files[1..] == fs[1..]
            && Reading(w.files) == Reading(fs) + (if w.appended then [entry] else [])
  {
    hide Size;
    AppendReading(fs, entry, faults);
  }

  /** When a write fails, and what it makes of the files when nothing does. */
  lemma {:induction false} WriteSucceedsIff(fs: Files, entry: Entry, limit: nat, faults: Faults)
    ensures var w := Attempt(fs, entry, limit, faults);
            && (faults.mkdir ==> w.files == fs && w.failure == Some(MkdirFailed))
            && (w.failure.None? <==>
                  && !faults.mkdir && !faults.open && !faults.write && !faults.close
                  && (Full(fs, entry, limit) && !faults.stat ==> RotationWorks(fs, faults)))
            && (NoFault(faults) ==>
                  w.files == if Full(fs, entry, limit) then [Some([entry])] + fs[..3]
                             else [Some(Content(fs[0]) + [entry])] + fs[1..])
  {
    hide Size, Rotated, RotationWorks;
    RotatedShifts(fs, faults);
    if NoFault(faults) {
      NothingRefused(fs, faults);
      AppendFirst(fs, entry, faults);
      AppendFirst([None] + fs[..3], entry, faults);
    }
  }

  lemma AppendFirst(fs: Files, entry: Entry, faults: Faults)
    requires NoFault(faults)
    ensures Append(fs, entry, faults).files == [Some(Content(fs[0]) + [entry])] + fs[1..]
    ensures fs[0].None? ==> Append(fs, entry, faults).files == [Some([entry])] + fs[1..]
  {
    assert [] + [entry] == [entry];
  }

  lemma NothingRefused(fs: Files, faults: Faults)
    requires NoFault(faults)
    ensures RotationWorks(fs, faults)
  {
  }

  /** What was there, with or without the entry. */
  function Kept(entries: seq<Entry>, entry: Entry): set<seq<Entry>> {
    {entries, entries + [entry]}
  }

  lemma WriteKeeps(fs: Files, entry: Entry, limit: nat, faults: Faults)
    ensures |Content(fs[3])| <= |Reading(fs)|
    ensures var w := Attempt(fs, entry, limit, faults);
            if Full(fs, entry, limit) && !faults.stat then
              Reading(w.files) in Kept(Reading(fs), entry) + Kept(Reading(fs)[|Content(fs[3])|..], entry)
            else w.files[1..] == fs[1..] && Reading(w.files) in Kept(Reading(fs), entry)
  {
    hide Reading, Attempt, Full, Content;
    ContentWithin(fs);
    WriteReading(fs, entry, limit, faults);
    if !(Full(fs, entry, limit) && !faults.stat) {
      RoomKeepsAll(fs, entry, limit, faults);
    }
    var w := Attempt(fs, entry, limit, faults);
    assert Reading(fs)[0..] == Reading(fs);
    assert forall xs: seq<Entry> :: xs + [] == xs;
  }

  /**
   * One write, from the files before to those after: entries are dropped only from a log that was found full, and then
   * those of the oldest file; the error shows exactly when something needed was refused; and without any fault the
   * entry is added, in a full log at the start of a new file before which every file has moved up.
   */
  predicate Wrote(before: Files, after: Files, failure: Option<Failure>, entry: Entry, limit: nat, faults: Faults) {
    var full := before[0].Some? && Size(before[0].value) + |entry| > limit && !faults.stat;
    && (!full ==> after[1..] == before[1..] && Reading(after) in Kept(Reading(before), entry))
    && (full ==> Reading(after) in Kept(Reading(before), entry)
                                   + Kept(Content(before[2]) + Content(before[1]) + Content(before[0]), entry))
    && (faults.mkdir ==> after == before && failure == Some(MkdirFailed))
    && (failure.None? <==>
          && !faults.mkdir && !faults.open && !faults.write && !faults.close
          && (full ==> RotationWorks(before, faults)))
    && (NoFault(faults) ==>
          after == if full then [Some([entry])] + before[..3] else [Some(Content(before[0]) + [entry])] + before[1..])
  }

  lemma AttemptWrote(fs: Files, entry: Entry, limit: nat, faults: Faults)
    ensures var w := Attempt(fs, entry, limit, faults); Wrote(fs, w.files, w.failure, entry, limit, faults)
  {
    hide Size, Attempt, RotationWorks, Reading, Content, Kept;
    WriteSucceedsIff(fs, entry, limit, faults);
    WriteKeeps(fs, entry, limit, faults);
    NewerFiles(fs);
  }

  lemma NewerFiles(fs: Files)
    ensures |Content(fs[3])| <= |Reading(fs)|
    ensures Reading(fs)[|Content(fs[3])|..] == Content(fs[2]) + Content(fs[1]) + Content(fs[0])
  {
    hide Content;
  }

  // ---------- The writer ----------

  /** The log writer; the disk it works on is part of its state. */
  class Writer {
    const limit: int
    const redact: string -> string
    var files: Files
    var lastError: Option<Failure>

    constructor (limit: int, redact: string -> string, files: Files)
      ensures this.limit == limit && this.redact == redact && this.files == files && lastError == None
    {
      this.limit, this.redact, this.files, lastError := limit, redact, files, None;
    }

    method Rotate(faults: Faults) returns (failure: Option<Failure>)
      modifies this`files
      ensures (files, failure) == Rotated(old(files), faults)
    {
      var (kept, removed) := Remove(files, 3, faults.remove);
      files := kept;
      if !removed {
        return Some(RemoveFailed);
      }
      ghost var start := files;
      for n := 3 downto 0
        invariant RenameDown(start, 3, faults.rename) == RenameDown(files, n, faults.rename)
      {
        var (moved, renamed) := Rename(files, n, n in faults.rename);
        files := moved;
        if !renamed {
          return Some(RenameFailed(n));
        }
      }
      failure := None;
    }

    /**
     * `Write`. The text is redacted and cut to the limit; a full log is rotated first. The call always claims to have
     * written the text, while a failure stays visible in `lastError` until a write succeeds: then the entry stands
     * last in the files. Entries are dropped only from a log that was found full: while there is room every entry
     * stays, whatever fails, and a write without any fault adds the entry or starts a new file with it.
     */
    method Write(text: string, faults: Faults) returns (n: nat)
      modifies this
      ensures n == |text|
      ensures var w := Attempt(old(files), Clean(text, limit, redact), EffectiveLimit(limit), faults);
              files == w.files && lastError == w.failure
      ensures lastError.None? ==>
                Reading(files) != [] && Reading(files)[|Reading(files)| - 1] == Clean(text, limit, redact)
      ensures |Clean(text, limit, redact)| <= EffectiveLimit(limit)
      ensures var (clean, max) := (redact(text), if limit <= 0 then 4 * 1024 * 1024 else limit);
              var entry := if |clean| <= max then clean else clean[..max - 1] + "\n";
              Wrote(old(files), files, lastError, entry, max, faults)
    {
      hide Reading, Rotated, Size, Dropped, Wrote;
      var clean := redact(text);
      var max := if limit <= 0 then MAX_FILE_BYTES else limit;
      if |clean| > max {
        clean := clean[..max];
        clean := clean[|clean| - 1 := '\n'];
        assert clean == redact(text)[..max - 1] + "\n";
      }
      WriteReading(files, clean, max, faults);
      AttemptWrote(files, clean, max, faults);
      var err: Option<Failure> := if faults.mkdir then Some(MkdirFailed) else None;
      if err.None? && files[0].Some? && !faults.stat && Size(files[0].value) + |clean| > max {
        err := Rotate(faults);
      }
      if err.None? {
        if faults.open {
          err := Some(OpenFailed);
        } else {
          files := files[0 := Some(Content(files[0]))];
          if faults.write {
            err := Some(WriteFailed);
          } else {
            files := files[0 := Some(Content(files[0]) + [clean])];
            if faults.close {
              err := Some(CloseFailed);
            }
          }
        }
      }
      lastError := err;
      n := |text|;
    }
  }
}
