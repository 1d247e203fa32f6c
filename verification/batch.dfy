/** `cmd_mark_read` and `cmd_archive`: the choice between one message and a batch, the
    selection of the batch by the `--external`, `--internal` and `--all` flags, the loops that
    count what was done, and the search for the archive folder. What the server does with
    each message (find it by identifier, save the read flag, move it) is given per message as
    an `Attempt`. */
module Batch {
  import opened Wrappers
  import opened Seqs
  import opened Text
  import opened Mail
  import opened Listing

  /** The command-line flags of both commands. */
  datatype Flags = Flags(external: bool, internal: bool, all: bool, target: Option<String>)

  /** The records a batch applies to, named as in the tool's messages. */
  datatype Mode = External | Internal | All

  /** What the command does: a batch, one message by identifier, or the usage hint. */
  datatype Action = RunBatch(mode: Mode) | RunSingle(id: String) | ShowUsage

  /** The flags decide the action: any batch flag means a batch, `--external` winning over
      `--internal` and both over `--all`; otherwise a non-empty target; otherwise usage. */
  function ActionOf(f: Flags): (a: Action)
    ensures a.RunBatch? <==> f.external || f.internal || f.all
    ensures a.RunBatch? ==> (a.mode == External <==> f.external)
    ensures a.RunBatch? ==> (a.mode == Internal <==> !f.external && f.internal)
    ensures a.RunSingle? <==> !(f.external || f.internal || f.all) && Truthy(f.target)
    ensures a.RunSingle? ==> a.id == f.target.value
  {
    if f.external || f.internal || f.all then
      RunBatch(if f.external then External else if f.internal then Internal else All)
    else if Truthy(f.target) then RunSingle(f.target.value)
    else ShowUsage
  }

  predicate Matches(mode: Mode, e: Record) {
    match mode
    case External => !e.isInternal
    case Internal => e.isInternal
    case All => true
  }

  /** The records a batch applies to: exactly those of the mode, in their order. */
  function Select(emails: seq<Record>, mode: Mode): (r: seq<Record>)
    ensures forall k :: 0 <= k < |r| ==> r[k] in emails && Matches(mode, r[k])
    ensures forall k :: 0 <= k < |emails| && Matches(mode, emails[k]) ==> emails[k] in r
    ensures mode == All ==> r == emails
  {
    match mode
    case External => ExternalGroup(emails)
    case Internal => InternalGroup(emails)
    case All => emails
  }

  /** The external and the internal batch split the records between them. */
  lemma SelectPartition(emails: seq<Record>)
    ensures |Select(emails, External)| + |Select(emails, Internal)| == |Select(emails, All)|
    ensures multiset(Select(emails, External)) + multiset(Select(emails, Internal)) == multiset(emails)
  {
    GroupsPartition(emails);
  }

  /** What happened to one message of a batch: not found by its identifier, done, or the
      server raised an error. */
  datatype Attempt = Missing | Succeeded | Raised

  /** The marking loop. A save that raises is not caught: the run stops there (`aborted`).
      Otherwise `count` is the number of messages found and saved. */
  method MarkReadBatch(selected: seq<Record>, attempts: seq<Attempt>) returns (count: nat, aborted: bool)
    requires |attempts| == |selected|
    ensures count <= |selected|
    ensures aborted <==> Raised in attempts
    ensures !aborted ==> count == Count(attempts, Succeeded)
    ensures aborted ==> count == Count(attempts[..IndexOf(attempts, Raised)], Succeeded)
  {
    count, aborted := 0, false;
    for i := 0 to |selected|
      invariant Raised !in attempts[..i]
      invariant count == Count(attempts[..i], Succeeded)
    {
      CountSnoc(attempts, i, Succeeded);
      assert attempts[..i + 1] == attempts[..i] + [attempts[i]];
      match attempts[i]
      case Missing =>
      case Succeeded =>
        count := count + 1;
      case Raised =>
        aborted := true;
        assert IndexOf(attempts, Raised) == i;
        return;
    }
    assert attempts[..|selected|] == attempts;
  }

  /** The archiving loop. A move that raises is caught and counted as an error. */
  method ArchiveBatch(selected: seq<Record>, attempts: seq<Attempt>) returns (count: nat, errors: nat)
    requires |attempts| == |selected|
    ensures count == Count(attempts, Succeeded)
    ensures errors == Count(attempts, Raised)
    ensures count + errors == |selected| - Count(attempts, Missing)
  {
    count, errors := 0, 0;
    for i := 0 to |selected|
      invariant count == Count(attempts[..i], Succeeded)
      invariant errors == Count(attempts[..i], Raised)
    {
      CountSnoc(attempts, i, Succeeded);
      CountSnoc(attempts, i, Raised);
      if attempts[i] == Succeeded {
        count := count + 1;
      } else if attempts[i] == Raised {
        errors := errors + 1;
      }
    }
    TakeAll(attempts);
    AttemptsAddUp(attempts);
  }

  /** Every attempt is either missing, a success or an error. */
  lemma {:induction false} AttemptsAddUp(attempts: seq<Attempt>)
    ensures Count(attempts, Succeeded) + Count(attempts, Raised) + Count(attempts, Missing) == |attempts|
  {
    if attempts != [] {
      AttemptsAddUp(attempts[1..]);
      assert Count(attempts, Succeeded) == (if attempts[0] == Succeeded then 1 else 0) + Count(attempts[1..], Succeeded);
      assert Count(attempts, Raised) == (if attempts[0] == Raised then 1 else 0) + Count(attempts[1..], Raised);
      assert Count(attempts, Missing) == (if attempts[0] == Missing then 1 else 0) + Count(attempts[1..], Missing);
    }
  }

  /** What the commands report. `Interrupted` is a batch stopped by an uncaught error after
      `count` messages. `FolderNotCreated` is `cmd_archive` stopped, before it looks at its
      flags, by an uncaught error while creating the `Archive` folder. `Failed` is an error on the one message named: `cmd_archive` catches
      it and prints it, while in `cmd_mark_read` it escapes the command. */
  datatype Report =
    | Usage
    | NotFound(id: String)
    | Done(id: String)
    | Failed(id: String)
    | NothingToDo(mode: Mode)
    | Processed(mode: Mode, count: nat, errors: nat)
    | Interrupted(mode: Mode, count: nat)
    | FolderNotCreated

  /** The batch attempts are given when the flags ask for a batch, one per selected record. */
  predicate AttemptsFit(f: Flags, unread: seq<Record>, attempts: seq<Attempt>) {
    ActionOf(f).RunBatch? ==> |attempts| == |Select(unread, ActionOf(f).mode)|
  }

  /** `cmd_mark_read`. `unread` are all unread records of the period (`show_all=True`);
      `single` is the fate of the one message named by identifier. */
  method CmdMarkRead(f: Flags, unread: seq<Record>, attempts: seq<Attempt>, single: Attempt) returns (report: Report)
    requires AttemptsFit(f, unread, attempts)
    ensures ActionOf(f).ShowUsage? <==> report == Usage
    ensures report.NothingToDo? <==> ActionOf(f).RunBatch? && Select(unread, ActionOf(f).mode) == []
    ensures report.Processed? ==>
      && report.errors == 0
      && report.count == Count(attempts, Succeeded) <= |Select(unread, report.mode)|
    ensures report.Processed? || report.Interrupted? || report.NothingToDo? ==>
      ActionOf(f).RunBatch? && report.mode == ActionOf(f).mode
    ensures report.Processed? <==>
      ActionOf(f).RunBatch? && Select(unread, ActionOf(f).mode) != [] && Raised !in attempts
    ensures report.Interrupted? <==>
      ActionOf(f).RunBatch? && Select(unread, ActionOf(f).mode) != [] && Raised in attempts
    ensures report.Interrupted? ==>
      && Raised in attempts
      && report.count == Count(attempts[..IndexOf(attempts, Raised)], Succeeded)
      && report.count < |Select(unread, report.mode)|
    ensures report.NotFound? <==> ActionOf(f).RunSingle? && single == Missing
    ensures report.Done? <==> ActionOf(f).RunSingle? && single == Succeeded
    ensures report.Failed? <==> ActionOf(f).RunSingle? && single == Raised
    ensures report.NotFound? || report.Done? || report.Failed? ==> report.id == ActionOf(f).id
  {
    match ActionOf(f)
    case ShowUsage =>
      report := Usage;
    case RunSingle(id) =>
      report := match single
        case Missing => NotFound(id)
        case Succeeded => Done(id)
        case Raised => Failed(id);
    case RunBatch(mode) =>
      var selected := Select(unread, mode);
      if selected == [] {
        report := NothingToDo(mode);
      } else {
        var count, aborted := MarkReadBatch(selected, attempts);
        report := if aborted then Interrupted(mode, count) else Processed(mode, count, 0);
      }
  }

  /** The folder names taken for the archive, compared in lower case. */
  const ArchiveNames: seq<String> := ["archive", "архив", "deleted items", "удаленные"]

  predicate IsArchiveName(name: String): (b: bool)
    ensures b <==> Lower(name) == "archive" || Lower(name) == "архив"
                   || Lower(name) == "deleted items" || Lower(name) == "удаленные"
  {
    Lower(name) in ArchiveNames
  }

  /** The comparison ignores case: a name and its lower-cased form are both archive names or
      neither is. */
  lemma ArchiveNameIgnoresCase(name: String)
    ensures IsArchiveName(name) <==> IsArchiveName(Lower(name))
  {
    LowerIdempotent(name);
  }

  /** The walk over the folder tree: the position of the first folder with an archive name. */
  method FindArchiveFolder(names: seq<String>) returns (found: Option<nat>)
    ensures found.Some? ==> found.value < |names| && IsArchiveName(names[found.value])
    ensures found.Some? ==> forall j :: 0 <= j < found.value ==> !IsArchiveName(names[j])
    ensures found.None? ==> forall j :: 0 <= j < |names| ==> !IsArchiveName(names[j])
  {
    found := None;
    for i := 0 to |names|
      invariant forall j :: 0 <= j < i ==> !IsArchiveName(names[j])
    {
      if IsArchiveName(names[i]) {
        found := Some(i);
        return;
      }
    }
  }

  /** Where archived messages go: the folder found, else the trash, else a new `Archive`
      folder (when the trash is not available). */
  datatype Destination = FolderAt(index: nat) | Trash | NewArchiveFolder

  /** The new `Archive` folder was needed and saving it raised: nothing else happens. */
  predicate CreationFailed(destination: Destination, folderCreated: bool) {
    destination.NewArchiveFolder? && !folderCreated
  }

  /** `cmd_archive`. `folders` are the names met on the folder walk, `trashAvailable` whether
      the account has a trash folder, `folderCreated` whether saving a new `Archive` folder
      succeeds when one is needed. */
  method CmdArchive(f: Flags, folders: seq<String>, trashAvailable: bool, folderCreated: bool,
                    unread: seq<Record>, attempts: seq<Attempt>, single: Attempt)
    returns (destination: Destination, report: Report)
    requires AttemptsFit(f, unread, attempts)
    ensures destination.FolderAt? ==> destination.index < |folders| && IsArchiveName(folders[destination.index])
    ensures !destination.FolderAt? ==> forall j :: 0 <= j < |folders| ==> !IsArchiveName(folders[j])
    ensures destination.FolderAt? ==> forall j :: 0 <= j < destination.index ==> !IsArchiveName(folders[j])
    ensures destination.Trash? ==> trashAvailable
    ensures destination.NewArchiveFolder? ==> !trashAvailable
    ensures report.FolderNotCreated? <==> CreationFailed(destination, folderCreated)
    ensures !CreationFailed(destination, folderCreated) ==> (ActionOf(f).ShowUsage? <==> report == Usage)
    ensures !CreationFailed(destination, folderCreated) ==>
      (report.NothingToDo? <==> ActionOf(f).RunBatch? && Select(unread, ActionOf(f).mode) == [])
    ensures report.Processed? ==>
      && report.count == Count(attempts, Succeeded)
      && report.errors == Count(attempts, Raised)
      && report.count + report.errors <= |Select(unread, report.mode)|
    ensures !report.Interrupted?
    ensures report.Processed? || report.NothingToDo? ==>
      ActionOf(f).RunBatch? && report.mode == ActionOf(f).mode
    ensures !CreationFailed(destination, folderCreated) ==>
      (report.Processed? <==> ActionOf(f).RunBatch? && Select(unread, ActionOf(f).mode) != [])
    ensures !CreationFailed(destination, folderCreated) ==>
      (report.NotFound? <==> ActionOf(f).RunSingle? && single == Missing)
    ensures !CreationFailed(destination, folderCreated) ==>
      (report.Done? <==> ActionOf(f).RunSingle? && single == Succeeded)
    ensures !CreationFailed(destination, folderCreated) ==>
      (report.Failed? <==> ActionOf(f).RunSingle? && single == Raised)
    ensures report.NotFound? || report.Done? || report.Failed? ==> report.id == ActionOf(f).id
  {
    var found := FindArchiveFolder(folders);
    destination := if found.Some? then FolderAt(found.value)
                   else if trashAvailable then Trash
                   else NewArchiveFolder;
    if CreationFailed(destination, folderCreated) {
      report := FolderNotCreated;
      return;
    }
    match ActionOf(f)
    case ShowUsage =>
      report := Usage;
    case RunSingle(id) =>
      report := match single
        case Missing => NotFound(id)
        case Succeeded => Done(id)
        case Raised => Failed(id);
    case RunBatch(mode) =>
      var selected := Select(unread, mode);
      if selected == [] {
        report := NothingToDo(mode);
      } else {
        var count, errors := ArchiveBatch(selected, attempts);
        report := Processed(mode, count, errors);
      }
  }
}
