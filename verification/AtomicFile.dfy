/**
 Writing several files as a unit. Every operation of the disk may fail; a failed
 rename or removal changes nothing, a failed write leaves part of the data behind.
 Temporary files live in a name space of their own: the system never hands out
 the name of a file that exists or is being written.
 */
module AtomicFile {
  import opened Options

  type Path = string

  datatype Content = Content(data: string, perm: nat)

  datatype File = File(path: Path, content: Content)

  type Files = map<Path, Content>

  class Disk {
    var files: Files
    var temps: map<nat, Content>
    var next: nat
    /** Every state the named files have been in, the present one last. */
    ghost var history: seq<Files>
    /** Temporary files a removal failed on. */
    ghost var stuck: set<nat>
    /** How many operations have failed. */
    ghost var faults: nat

    ghost predicate Valid()
      reads this
    {
      (forall t :: t in temps ==> t < next) && history != [] && history[|history| - 1] == files
    }

    constructor (files: Files)
      ensures Valid() && this.files == files && temps == map[] && history == [files] && stuck == {} && faults == 0
    {
      this.files, temps, next, history, stuck, faults := files, map[], 0, [files], {}, 0;
    }

    method CreateTemp() returns (name: Option<nat>)
      requires Valid()
      modifies this`temps, this`next, this`faults
      ensures Valid() && next >= old(next) && faults == old(faults) + if name.None? then 1 else 0
      ensures name.None? ==> temps == old(temps)
      ensures name.Some? ==> name.value !in old(temps) && name.value < next
                             && temps == old(temps)[name.value := Content("", 0x180)]
    {
      if * {
        faults := faults + 1;
        return None;
      }
      name := Some(next);
      temps := temps[next := Content("", 0x180)];
      next := next + 1;
    }

    /** Writing stops anywhere when it fails. */
    method WriteTemp(t: nat, data: string) returns (ok: bool)
      requires Valid() && t in temps
      modifies this`temps, this`faults
      ensures faults == old(faults) + if ok then 0 else 1
      ensures Valid() && exists part :: temps == old(temps)[t := old(temps)[t].(data := part)] && (ok ==> part == data)
    {
      ok := *;
      var n: int := *;
      var part := if !ok && 0 <= n <= |data| then data[..n] else data;
      temps := temps[t := temps[t].(data := part)];
      if !ok { faults := faults + 1; }
    }

    /** Flushing, closing: either works or reports that it did not. */
    method Sync() returns (ok: bool)
      modifies this`faults
      ensures faults == old(faults) + if ok then 0 else 1
    {
      ok := *;
      if !ok { faults := faults + 1; }
    }

    method Chmod(t: nat, perm: nat) returns (ok: bool)
      requires Valid() && t in temps
      modifies this`temps, this`faults
      ensures faults == old(faults) + if ok then 0 else 1
      ensures Valid() && temps == if ok then old(temps)[t := old(temps)[t].(perm := perm)] else old(temps)
    {
      ok := *;
      if ok { temps := temps[t := temps[t].(perm := perm)]; } else { faults := faults + 1; }
    }

    method RemoveTemp(t: nat)
      requires Valid() && t in temps
      modifies this`temps, this`stuck, this`faults
      ensures Valid() && faults == old(faults) + if t in temps then 1 else 0
      ensures if t in temps then temps == old(temps) && stuck == old(stuck) + {t}
              else temps == old(temps) - {t} && stuck == old(stuck)
    {
      if * {
        stuck := stuck + {t};
        faults := faults + 1;
      } else {
        temps := temps - {t};
      }
    }

    method Rename(t: nat, path: Path) returns (ok: bool)
      requires Valid() && t in temps
      modifies this`files, this`temps, this`history, this`faults
      ensures Valid() && faults == old(faults) + if ok then 0 else 1
      ensures !ok ==> files == old(files) && temps == old(temps) && history == old(history)
      ensures ok ==> files == old(files)[path := old(temps)[t]] && temps == old(temps) - {t}
                     && history == old(history) + [files]
    {
      ok := *;
      if ok {
        files, temps := files[path := temps[t]], temps - {t};
        history := history + [files];
      } else {
        faults := faults + 1;
      }
    }

    method RemoveFile(path: Path) returns (ok: bool)
      requires Valid()
      modifies this`files, this`history, this`faults
      ensures Valid() && faults == old(faults) + if ok then 0 else 1
      ensures !ok ==> files == old(files) && history == old(history)
      ensures ok ==> files == old(files) - {path} && history == old(history) + [files]
    {
      ok := *;
      if ok {
        files := files - {path};
        history := history + [files];
      } else {
        faults := faults + 1;
      }
    }

    /** Stat and read: nothing when there is no file, or when it cannot be read. */
    method Read(path: Path) returns (content: Option<Content>)
      modifies this`faults
      ensures faults == old(faults) + if path in files && content.None? then 1 else 0
      ensures content.Some? ==> path in files && content.value == files[path]
    {
      content := None;
      if path in files {
        if * { content := Some(files[path]); } else { faults := faults + 1; }
      }
    }

    // ---------- writeTemp, restore ----------

    /** The temporary files are those of before but for some that would not go. */
    twostate predicate OnlyStuckLeft()
      reads this
    {
      && old(stuck) <= stuck && old(next) <= next
      && (forall t :: t in old(temps) ==> t in temps && temps[t] == old(temps)[t])
      && (forall t :: t in temps ==> t in old(temps) || t in stuck)
    }

    method StoreTemp(f: File) returns (name: Option<nat>)
      requires Valid()
      modifies this`temps, this`next, this`stuck, this`faults
      ensures Valid() && old(stuck) <= stuck && old(next) <= next
      ensures old(faults) <= faults && (name.Some? <==> faults == old(faults))
      ensures faults <= old(faults) + 1 ==> stuck == old(stuck)
      ensures name.None? ==> OnlyStuckLeft()
      ensures name.Some? ==> stuck == old(stuck) && name.value !in old(temps) && temps == old(temps)[name.value := f.content]
    {
      name := CreateTemp();
      if name.None? {
        return;
      }
      var t := name.value;
      var ok := WriteTemp(t, f.content.data);
      if ok { ok := Sync(); }
      if ok { ok := Sync(); }
      if ok { ok := Chmod(t, f.content.perm); }
      if !ok {
        RemoveTemp(t);
        return None;
      }
    }

    method Restore(path: Path, content: Content) returns (ok: bool)
      requires Valid()
      modifies this
      ensures Valid() && OnlyStuckLeft()
      ensures old(faults) <= faults && (ok <==> faults == old(faults))
      ensures faults <= old(faults) + 1 ==> stuck == old(stuck)
      ensures !ok ==> files == old(files) && history == old(history)
      ensures ok ==> files == old(files)[path := content] && history == old(history) + [files]
    {
      var name := StoreTemp(File(path, content));
      if name.None? {
        return false;
      }
      ok := Rename(name.value, path);
      if !ok {
        RemoveTemp(name.value);
      }
    }
  
    // ---------- WriteAll ----------

    method RemoveTemps(names: seq<nat>)
      requires Valid()
      modifies this`temps, this`stuck, this`faults
      ensures Valid() && old(stuck) <= stuck && old(faults) <= faults
      ensures faults == old(faults) ==> stuck == old(stuck)
      ensures forall t :: t in temps ==> t in old(temps) && temps[t] == old(temps)[t] && (t in names ==> t in stuck)
      ensures forall t :: t in old(temps) && t !in names ==> t in temps
    {
      for i := 0 to |names|
        invariant Valid() && old(stuck) <= stuck && old(faults) <= faults
        invariant faults == old(faults) ==> stuck == old(stuck)
        invariant forall t :: t in temps ==> t in old(temps) && temps[t] == old(temps)[t] && (t in names[..i] ==> t in stuck)
        invariant forall t :: t in old(temps) && t !in names[..i] ==> t in temps
      {
        assert names[..i + 1] == names[..i] + [names[i]];
        if names[i] in temps {
          RemoveTemp(names[i]);
        }
      }
      assert names[..|names|] == names;
    }

    method StoreTemps(fs: seq<File>) returns (names: seq<nat>, ok: bool)
      requires Valid()
      modifies this`temps, this`next, this`stuck, this`faults
      ensures Valid() && old(faults) <= faults && (ok <==> faults == old(faults))
      ensures faults <= old(faults) + 1 ==> stuck == old(stuck)
      ensures if ok then Holding(temps, old(temps), names, fs) && stuck == old(stuck) && old(next) <= next
              else OnlyStuckLeft()
    {
      names := [];
      NothingHeld(temps);
      hide Holding;
      for i := 0 to |fs|
        invariant Valid() && Holding(temps, old(temps), names, fs[..i]) && stuck == old(stuck) && old(next) <= next
        invariant faults == old(faults)
      {
        HoldsOneMore(temps, old(temps), names, fs, i);
        HeldIsKept(temps, old(temps), names, fs[..i]);
        var name := StoreTemp(fs[i]);
        if name.None? {
          RemoveTemps(names);
          return names, false;
        }
        names := names + [name.value];
      }
      assert fs[..|fs|] == fs;
      ok := true;
    }

    method ReadPrevious(fs: seq<File>) returns (prev: seq<Option<Content>>)
      modifies this`faults
      ensures Recalls(files, fs, prev) && faults == old(faults) + Unread(files, fs, prev)
    {
      prev := [];
      for i := 0 to |fs|
        invariant |prev| == i && Recalls(files, fs[..i], prev)
        invariant faults == old(faults) + Unread(files, fs[..i], prev)
      {
        var content := Read(fs[i].path);
        OneMoreRead(files, fs, prev, content);
        prev := prev + [content];
      }
      assert fs[..|fs|] == fs;
    }

    /** One step back: the content read before, or no file where none was read. */
    method UndoOne(fs: seq<File>, prev: seq<Option<Content>>, j: nat, ghost start: Files, ghost from: nat)
      returns (ok: bool)
      requires Valid() && j < |fs| && Recalls(start, fs, prev)
      requires AlwaysWhole(history, from, start, fs, prev) && Whole(start, fs, prev, files)
      modifies this
      ensures Valid() && OnlyStuckLeft()
      ensures old(faults) <= faults && (ok <==> faults == old(faults))
      ensures faults == old(faults) ==> stuck == old(stuck)
      ensures files == if !ok then old(files)
                       else if prev[j].Some? then old(files)[fs[j].path := prev[j].value]
                       else old(files) - {fs[j].path}
      ensures old(history) <= history && AlwaysWhole(history, from, start, fs, prev) && Whole(start, fs, prev, files)
    {
      hide Whole;
      StaysWhole(start, fs, prev, files, j);
      if prev[j].Some? {
        ok := Restore(fs[j].path, prev[j].value);
      } else {
        ok := RemoveFile(fs[j].path);
      }
    }

    /** Puts back what the first renames replaced, as far as each step works. */
    method RollBack(fs: seq<File>, prev: seq<Option<Content>>, at: nat, ghost start: Files, ghost from: nat)
      returns (ghost undone: seq<bool>)
      requires Valid() && at <= |fs| && Recalls(start, fs, prev)
      requires AlwaysWhole(history, from, start, fs, prev) && Whole(start, fs, prev, files)
      modifies this
      ensures Valid() && OnlyStuckLeft() && |undone| == at
      ensures faults >= old(faults) + Failures(undone) && (faults == old(faults) ==> stuck == old(stuck))
      ensures files == Undone(old(files), fs, prev, undone)
      ensures old(history) <= history && AlwaysWhole(history, from, start, fs, prev)
    {
      hide Undone, AlwaysWhole, Whole;
      undone := [];
      NothingUndone(files, fs, prev);
      for j := 0 to at
        invariant Valid() && OnlyStuckLeft() && |undone| == j && |prev| == |fs|
        invariant faults >= old(faults) + Failures(undone) && (faults == old(faults) ==> stuck == old(stuck))
        invariant files == Undone(old(files), fs, prev, undone)
        invariant old(history) <= history && AlwaysWhole(history, from, start, fs, prev) && Whole(start, fs, prev, files)
      {
        UndoneStep(old(files), fs, prev, undone);
        var ok := UndoOne(fs, prev, j, start, from);
        assert (undone + [ok])[..j] == undone;
        undone := undone + [ok];
      }
    }

    /** The rename that is due, with everything it keeps. */
    method RenameOne(names: seq<nat>, fs: seq<File>, prev: seq<Option<Content>>, i: nat,
                     ghost kept: map<nat, Content>, ghost start: Files, ghost from: nat)
      returns (ok: bool)
      requires Valid() && i < |fs| && Renaming(temps, kept, names, fs, i) && Recalls(start, fs, prev)
      requires AlwaysWhole(history, from, start, fs, prev) && Whole(start, fs, prev, files)
      modifies this`files, this`temps, this`history, this`faults
      ensures faults == old(faults) + if ok then 0 else 1
      ensures Valid() && Renaming(temps, kept, names, fs, if ok then i + 1 else i)
      ensures files == if ok then old(files)[fs[i].path := fs[i].content] else old(files)
      ensures old(history) <= history && AlwaysWhole(history, from, start, fs, prev)
      ensures Whole(start, fs, prev, files)
    {
      hide Renaming, AlwaysWhole, Whole;
      RenamingNext(temps, kept, names, fs, i);
      StaysWhole(start, fs, prev, files, i);
      WholeOnceMore(history, from, start, fs, prev, files[fs[i].path := fs[i].content]);
      ok := Rename(names[i], fs[i].path);
    }

    /** A rename failed: its temporary file goes, the renames before it are undone,
        then the temporary files of those after it go. */
    method GiveUp(names: seq<nat>, fs: seq<File>, prev: seq<Option<Content>>, i: nat,
                  ghost kept: map<nat, Content>, ghost start: Files, ghost from: nat)
      returns (ghost undone: seq<bool>)
      requires Valid() && i < |fs| && Renaming(temps, kept, names, fs, i) && Recalls(start, fs, prev)
      requires AlwaysWhole(history, from, start, fs, prev) && Whole(start, fs, prev, files)
      modifies this
      ensures Valid() && old(stuck) <= stuck && old(next) <= next && |undone| == i
      ensures faults >= old(faults) + Failures(undone) && (faults == old(faults) ==> stuck == old(stuck))
      ensures forall t :: t in kept ==> t in temps && temps[t] == kept[t]
      ensures forall t :: t in temps ==> t in kept || t in stuck
      ensures files == Undone(old(files), fs, prev, undone)
      ensures old(history) <= history && AlwaysWhole(history, from, start, fs, prev)
    {
      hide Undone, Whole, Recalls;
      assert names[i..] == [names[i]] + names[i + 1..];
      RemoveTemp(names[i]);
      undone := RollBack(fs, prev, i, start, from);
      RemoveTemps(names[i + 1..]);
    }

    /** Either every file is replaced, or the outcome says how far things got and
        which steps of the way back worked. It fails only where an operation of the disk
        did, and every step that is missing is one more failure. */
    method WriteAll(fs: seq<File>) returns (failed: bool, ghost outcome: Outcome)
      requires Valid()
      modifies this
      ensures Valid() && OnlyStuckLeft() && old(history) <= history
      ensures failed <==> !outcome.Written?
      ensures Explains(outcome, old(files), fs, files, faults - old(faults))
      ensures failed && faults == old(faults) + 1 ==> stuck == old(stuck)
      ensures outcome.Written? ==> temps == old(temps)
      ensures outcome.NotBegun? ==> history == old(history)
      ensures outcome.NotBegun? || (|outcome.prev| == |fs|
              && AlwaysWhole(history, |old(history)|, old(files), fs, outcome.prev))
    {
      hide Holding, Whole, Recalls, Renaming, AlwaysWhole, Unread, Failures, Undone;
      var names, ok := StoreTemps(fs);
      if !ok {
        return true, NotBegun;
      }
      HeldIsRenaming(temps, old(temps), names, fs);
      var prev := ReadPrevious(fs);
      ghost var start, from, kept := files, |history|, old(temps);
      WholeAtFirst(history, start, fs, prev);
      assert fs[..|fs|] == fs;
      for i := 0 to |fs|
        invariant Valid() && Renaming(temps, kept, names, fs, i) && stuck == old(stuck) && old(next) <= next
        invariant |prev| == |fs| && faults == old(faults) + Unread(start, fs, prev)
        invariant files == Replaced(start, fs[..i]) && old(history) <= history
        invariant AlwaysWhole(history, from, start, fs, prev) && Whole(start, fs, prev, files)
      {
        assert fs[..i + 1][..i] == fs[..i];
        var renamed := RenameOne(names, fs, prev, i, kept, start, from);
        if !renamed {
          ghost var undone := GiveUp(names, fs, prev, i, kept, start, from);
          return true, RolledBack(prev, undone);
        }
      }
      RenamingEnds(temps, kept, names, fs);
      return false, Written(prev);
    }
  }

  datatype Outcome =
    | NotBegun
    | Written(prev: seq<Option<Content>>)
    | RolledBack(prev: seq<Option<Content>>, undone: seq<bool>)

  /** How the named files came from what they were to what they are, by so many failures:
      nothing is done without them, and each step that is missing is one more. */
  ghost predicate Explains(outcome: Outcome, start: Files, fs: seq<File>, end: Files, faults: int) {
    match outcome
    case NotBegun => end == start && faults > 0
    case Written(prev) => Recalls(start, fs, prev) && end == Replaced(start, fs) && faults == Unread(start, fs, prev)
    case RolledBack(prev, undone) =>
      && |undone| < |fs| && Recalls(start, fs, prev)
      && end == Undone(Replaced(start, fs[..|undone|]), fs, prev, undone)
      && faults > Unread(start, fs, prev) + Failures(undone)
  }

  /** What was read before anything was replaced. */
  ghost predicate Recalls(files: Files, fs: seq<File>, prev: seq<Option<Content>>) {
    |prev| == |fs| && forall i :: 0 <= i < |fs| && prev[i].Some? ==> fs[i].path in files && prev[i].value == files[fs[i].path]
  }

  /** The named files after the first renames. */
  function Replaced(files: Files, fs: seq<File>): Files {
    if fs == [] then files
    else Replaced(files, fs[..|fs| - 1])[fs[|fs| - 1].path := fs[|fs| - 1].content]
  }

  /** … and after some steps of the roll-back, of which the marked ones worked. */
  function Undone(files: Files, fs: seq<File>, prev: seq<Option<Content>>, undone: seq<bool>): Files
    requires |undone| <= |fs| && |undone| <= |prev|
  {
    if undone == [] then files
    else
      var j := |undone| - 1;
      var before := Undone(files, fs, prev, undone[..j]);
      if !undone[j] then before
      else if prev[j].Some? then before[fs[j].path := prev[j].value]
      else before - {fs[j].path}
  }

  /** How many of the old files were there and could not be read. */
  ghost function Unread(files: Files, fs: seq<File>, prev: seq<Option<Content>>): nat
    requires |prev| == |fs|
  {
    if fs == [] then 0
    else
      var n := |fs| - 1;
      Unread(files, fs[..n], prev[..n]) + if prev[n].None? && fs[n].path in files then 1 else 0
  }

  lemma OneMoreRead(files: Files, fs: seq<File>, prev: seq<Option<Content>>, content: Option<Content>)
    requires |prev| < |fs|
    ensures var i := |prev|;
            Unread(files, fs[..i + 1], prev + [content]) ==
              Unread(files, fs[..i], prev) + if content.None? && fs[i].path in files then 1 else 0
  {
    var i := |prev|;
    assert fs[..i + 1][..i] == fs[..i] && (prev + [content])[..i] == prev;
  }

  /** How many steps back did not work. */
  ghost function Failures(undone: seq<bool>): nat {
    if undone == [] then 0 else Failures(undone[..|undone| - 1]) + if undone[|undone| - 1] then 0 else 1
  }

  lemma {:induction false} AllRead(files: Files, fs: seq<File>, prev: seq<Option<Content>>, j: nat)
    requires |prev| == |fs| && Unread(files, fs, prev) == 0 && j < |fs|
    ensures fs[j].path in files ==> prev[j].Some?
  {
    if j < |fs| - 1 { AllRead(files, fs[..|fs| - 1], prev[..|fs| - 1], j); }
  }

  lemma {:induction false} AllWorked(undone: seq<bool>, j: nat)
    requires Failures(undone) == 0 && j < |undone|
    ensures undone[j]
  {
    if j < |undone| - 1 { AllWorked(undone[..|undone| - 1], j); }
  }

  /** Every named file is whole: what it was at the start, or one of the new
      contents meant for it; and only a file that could not be read goes missing. */
  ghost predicate Whole(start: Files, fs: seq<File>, prev: seq<Option<Content>>, s: Files)
    requires |prev| == |fs|
  {
    && (forall p :: p in s ==> (p in start && s[p] == start[p]) || File(p, s[p]) in fs)
    && (forall p :: p in start && p !in s ==> exists i :: 0 <= i < |fs| && fs[i].path == p && prev[i].None?)
  }

  /** From some point on, the named files were always whole. */
  ghost predicate AlwaysWhole(history: seq<Files>, from: nat, start: Files, fs: seq<File>, prev: seq<Option<Content>>)
    requires |prev| == |fs|
  {
    forall i :: from <= i < |history| ==> Whole(start, fs, prev, history[i])
  }

  lemma WholeOnceMore(history: seq<Files>, from: nat, start: Files, fs: seq<File>, prev: seq<Option<Content>>, s: Files)
    requires |prev| == |fs| && AlwaysWhole(history, from, start, fs, prev) && Whole(start, fs, prev, s)
    ensures AlwaysWhole(history + [s], from, start, fs, prev)
  {
    hide Whole;
  }

  /** Among the temporary files: those kept from before, and those of the renames
      still to come. */
  ghost predicate Renaming(temps: map<nat, Content>, kept: map<nat, Content>, names: seq<nat>, fs: seq<File>, i: nat) {
    && i <= |names| == |fs|
    && (forall j, k :: 0 <= j < k < |names| ==> names[j] != names[k])
    && (forall j :: 0 <= j < |names| ==> names[j] !in kept)
    && (forall j :: i <= j < |names| ==> names[j] in temps && temps[names[j]] == fs[j].content)
    && (forall t :: t in kept ==> t in temps && temps[t] == kept[t])
    && (forall t :: t in temps ==> t in kept || t in names[i..])
  }

  /** One temporary file for each file, apart from those there were. */
  ghost predicate Holding(temps: map<nat, Content>, kept: map<nat, Content>, names: seq<nat>, fs: seq<File>) {
    && |names| == |fs|
    && (forall i, j :: 0 <= i < j < |names| ==> names[i] != names[j])
    && (forall i :: 0 <= i < |names| ==> names[i] !in kept && names[i] in temps && temps[names[i]] == fs[i].content)
    && (forall t :: t in kept ==> t in temps && temps[t] == kept[t])
    && (forall t :: t in temps ==> t in kept || t in names)
  }

  lemma NothingHeld(temps: map<nat, Content>)
    ensures Holding(temps, temps, [], [])
  {
  }

  lemma HoldsOneMore(temps: map<nat, Content>, kept: map<nat, Content>, names: seq<nat>, fs: seq<File>, i: nat)
    requires i < |fs| && Holding(temps, kept, names, fs[..i])
    ensures forall t :: t !in temps ==> Holding(temps[t := fs[i].content], kept, names + [t], fs[..i + 1])
  {
    assert fs[..i + 1] == fs[..i] + [fs[i]];
  }

  lemma HeldIsKept(temps: map<nat, Content>, kept: map<nat, Content>, names: seq<nat>, fs: seq<File>)
    requires Holding(temps, kept, names, fs)
    ensures forall t :: t in kept ==> t in temps && temps[t] == kept[t] && t !in names
    ensures forall t :: t in temps ==> t in kept || t in names
  {
  }

  lemma HeldIsRenaming(temps: map<nat, Content>, kept: map<nat, Content>, names: seq<nat>, fs: seq<File>)
    requires Holding(temps, kept, names, fs)
    ensures Renaming(temps, kept, names, fs, 0) && |names| == |fs|
  {
    assert names[0..] == names;
  }

  lemma RenamingNext(temps: map<nat, Content>, kept: map<nat, Content>, names: seq<nat>, fs: seq<File>, i: nat)
    requires Renaming(temps, kept, names, fs, i) && i < |fs|
    ensures i < |names| && names[i] in temps && temps[names[i]] == fs[i].content
    ensures Renaming(temps - {names[i]}, kept, names, fs, i + 1)
  {
    assert names[i..] == [names[i]] + names[i + 1..];
    var rest := temps - {names[i]};
    forall j | i + 1 <= j < |names| ensures names[j] in rest && rest[names[j]] == fs[j].content {
      assert names[i] != names[j];
    }
    forall t | t in kept ensures t in rest && rest[t] == kept[t] {
      assert t != names[i];
    }
  }

  lemma RenamingEnds(temps: map<nat, Content>, kept: map<nat, Content>, names: seq<nat>, fs: seq<File>)
    requires Renaming(temps, kept, names, fs, |fs|)
    ensures temps == kept
  {
  }

  lemma WholeAtFirst(history: seq<Files>, start: Files, fs: seq<File>, prev: seq<Option<Content>>)
    requires Recalls(start, fs, prev)
    ensures |prev| == |fs| && Whole(start, fs, prev, start) && AlwaysWhole(history, |history|, start, fs, prev)
  {
  }

  lemma StaysWhole(start: Files, fs: seq<File>, prev: seq<Option<Content>>, s: Files, i: nat)
    requires Recalls(start, fs, prev) && i < |fs| && Whole(start, fs, prev, s)
    ensures Whole(start, fs, prev, s[fs[i].path := fs[i].content])
    ensures prev[i].Some? ==> Whole(start, fs, prev, s[fs[i].path := prev[i].value])
    ensures prev[i].None? ==> Whole(start, fs, prev, s - {fs[i].path})
  {
    assert fs[i] == File(fs[i].path, fs[i].content);
  }

  lemma NothingUndone(files: Files, fs: seq<File>, prev: seq<Option<Content>>)
    ensures Undone(files, fs, prev, []) == files
  {
  }

  lemma UndoneStep(files: Files, fs: seq<File>, prev: seq<Option<Content>>, undone: seq<bool>)
    requires |undone| < |fs| && |undone| < |prev|
    ensures var j := |undone|;
            var before := Undone(files, fs, prev, undone);
            && Undone(files, fs, prev, undone + [false]) == before
            && Undone(files, fs, prev, undone + [true]) ==
                 if prev[j].Some? then before[fs[j].path := prev[j].value] else before - {fs[j].path}
  {
    assert (undone + [false])[..|undone|] == undone && (undone + [true])[..|undone|] == undone;
  }

  // ---------- all or nothing ----------

  function At(s: Files, p: Path): Option<Content> { if p in s then Some(s[p]) else None }

  lemma SameEverywhere(s: Files, t: Files)
    ensures s == t <==> forall p :: At(s, p) == At(t, p)
  {
    if forall p :: At(s, p) == At(t, p) {
      assert forall p :: p in s <==> At(s, p).Some?;
      assert forall p :: p in t <==> At(t, p).Some?;
      assert forall p :: p in s ==> Some(s[p]) == At(s, p) == At(t, p);
    }
  }

  /** The last of the files with a path, or -1. */
  function LastFor(fs: seq<File>, p: Path): (i: int)
    ensures -1 <= i < |fs| && (i >= 0 ==> fs[i].path == p)
    ensures forall j :: i < j < |fs| ==> fs[j].path != p
  {
    if fs == [] then -1
    else if fs[|fs| - 1].path == p then |fs| - 1
    else LastFor(fs[..|fs| - 1], p)
  }

  /** What success means, path by path: the last file for a path is there, whole and
      with its mode, and every other path is as it was. */
  lemma {:induction false} WrittenExactly(start: Files, fs: seq<File>, p: Path)
    ensures At(Replaced(start, fs), p) == if LastFor(fs, p) >= 0 then Some(fs[LastFor(fs, p)].content) else At(start, p)
  {
    if fs != [] {
      WrittenExactly(start, fs[..|fs| - 1], p);
    }
  }

  /** The last of the files with a path whose way back worked, or -1. */
  function LastBack(fs: seq<File>, undone: seq<bool>, p: Path): (i: int)
    requires |undone| <= |fs|
    ensures -1 <= i < |undone| && (i >= 0 ==> undone[i] && fs[i].path == p)
    ensures forall j :: i < j < |undone| ==> !(undone[j] && fs[j].path == p)
  {
    if undone == [] then -1
    else
      var n := |undone| - 1;
      if undone[n] && fs[n].path == p then n else LastBack(fs, undone[..n], p)
  }

  /** A roll-back leaves at a path what its last step back that worked put there. */
  lemma {:induction false} UndoneAt(files: Files, fs: seq<File>, prev: seq<Option<Content>>, undone: seq<bool>, p: Path)
    requires |undone| <= |fs| == |prev|
    ensures var j := LastBack(fs, undone, p);
            At(Undone(files, fs, prev, undone), p) == if j >= 0 then prev[j] else At(files, p)
  {
    if undone != [] {
      UndoneAt(files, fs, prev, undone[..|undone| - 1], p);
    }
  }

  /** A replaced path ends up as it began: the last way back that worked had something
      to go back to, or none worked and there was nothing to go back from. */
  ghost predicate BackToStart(start: Files, fs: seq<File>, prev: seq<Option<Content>>, undone: seq<bool>, p: Path)
    requires |undone| <= |fs| == |prev| && LastFor(fs[..|undone|], p) >= 0
  {
    var j := LastBack(fs, undone, p);
    if j >= 0 then prev[j].Some? || p !in start
    else At(start, p) == Some(fs[LastFor(fs[..|undone|], p)].content)
  }

  lemma PathBack(start: Files, fs: seq<File>, prev: seq<Option<Content>>, undone: seq<bool>, p: Path)
    requires |undone| <= |fs| && Recalls(start, fs, prev)
    ensures At(Undone(Replaced(start, fs[..|undone|]), fs, prev, undone), p) == At(start, p) <==>
              LastFor(fs[..|undone|], p) < 0 || BackToStart(start, fs, prev, undone, p)
  {
    hide Undone, Replaced, LastFor, LastBack;
    WrittenExactly(start, fs[..|undone|], p);
    UndoneAt(Replaced(start, fs[..|undone|]), fs, prev, undone, p);
    var j := LastBack(fs, undone, p);
    assert j >= 0 ==> fs[..|undone|][j].path == p;
  }

  /** After a failure the named files are exactly as before if and only if, for each
      path already replaced, the last way back that worked led to the old file or to
      none where there was none — or no way back worked and the last new content is the
      old one. */
  lemma NothingExactlyWhen(start: Files, fs: seq<File>, prev: seq<Option<Content>>, undone: seq<bool>)
    requires |undone| <= |fs| && Recalls(start, fs, prev)
    ensures Undone(Replaced(start, fs[..|undone|]), fs, prev, undone) == start <==>
      forall p :: LastFor(fs[..|undone|], p) >= 0 ==> BackToStart(start, fs, prev, undone, p)
  {
    hide Undone, Replaced, LastFor, BackToStart;
    var end := Undone(Replaced(start, fs[..|undone|]), fs, prev, undone);
    SameEverywhere(end, start);
    forall p
      ensures At(end, p) == At(start, p) <==>
                (LastFor(fs[..|undone|], p) >= 0 ==> BackToStart(start, fs, prev, undone, p))
    {
      PathBack(start, fs, prev, undone, p);
    }
  }

  /** An old file that could not be read is lost when its way back works: the step back
      removes what was put in its place. */
  lemma UnreadIsLost(p: Path, was: Content, now: Content, last: File)
    ensures var start, fs, prev := map[p := was], [File(p, now), last], [None, None];
            && Recalls(start, fs, prev)
            && Undone(Replaced(start, fs[..1]), fs, prev, [true]) == map[]
  {
    var start, fs, prev: seq<Option<Content>> := map[p := was], [File(p, now), last], [None, None];
    assert Replaced(start, fs[..1]) == map[p := now];
    NothingUndone(map[p := now], fs, prev);
    UndoneStep(map[p := now], fs, prev, []);
    assert [] + [true] == [true];
  }

  /** In particular, when every old file was readable and every step back works,
      nothing has changed. */
  lemma NothingWhenAllWorks(start: Files, fs: seq<File>, prev: seq<Option<Content>>, undone: seq<bool>)
    requires |undone| <= |fs| && Recalls(start, fs, prev)
    requires forall j :: 0 <= j < |undone| ==> undone[j] && (fs[j].path in start ==> prev[j].Some?)
    ensures Undone(Replaced(start, fs[..|undone|]), fs, prev, undone) == start
  {
    hide Undone, Replaced, LastFor, LastBack;
    NothingExactlyWhen(start, fs, prev, undone);
    forall p | LastFor(fs[..|undone|], p) >= 0 ensures BackToStart(start, fs, prev, undone, p) {
      var i := LastFor(fs[..|undone|], p);
      assert fs[i].path == p && undone[i];
    }
  }

  /** A single failure changes nothing: either all is written or all is as it was; and
      where nothing failed all is written. */
  lemma OneFaultChangesNothing(outcome: Outcome, start: Files, fs: seq<File>, end: Files, faults: int)
    requires Explains(outcome, start, fs, end, faults)
    ensures faults == 0 ==> outcome.Written?
    ensures faults == 1 ==> end == if outcome.Written? then Replaced(start, fs) else start
  {
    hide Undone, Replaced, Unread, Failures;
    if outcome.RolledBack? && faults == 1 {
      forall j | 0 <= j < |outcome.undone| ensures outcome.undone[j] && (fs[j].path in start ==> outcome.prev[j].Some?) {
        AllWorked(outcome.undone, j);
        AllRead(start, fs, outcome.prev, j);
      }
      NothingWhenAllWorks(start, fs, outcome.prev, outcome.undone);
    }
  }
}
