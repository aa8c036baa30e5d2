/** The bootstrap record: built from the history of `main`, and checked against it. */
module BootstrapRecord {
  import opened Common

  // ---- The repository, as git shows it ----

  type Tree = map<string, string>   // path to file content

  datatype Commit = Commit(id: string, tree: Tree)

  /**
   `history` is the line of commits from the first to HEAD, `tip` what fetching `main` from the remote gives, and
   `config` what rendering the configuration from the files at HEAD gives or refuses.
   */
  datatype Repo = Repo(history: seq<Commit>, shallow: bool, tip: Result<string, Error>, config: Result<string, Error>)

  datatype Error = Shallow | NoCommitId | FetchFailed | NotAtTip | NeverChanged(path: string) | NoSuchFile(path: string) | BadInput(reason: string)

  predicate IsHex(s: string, length: nat) {
    |s| == length && forall i :: 0 <= i < length ==> '0' <= s[i] <= '9' || 'a' <= s[i] <= 'f'
  }

  /** What git guarantees of the history: full commit ids, no two the same. */
  predicate Valid(repo: Repo) {
    && (forall i :: 0 <= i < |repo.history| ==> IsHex(repo.history[i].id, 40))
    && (forall i, j :: 0 <= i < j < |repo.history| ==> repo.history[i].id != repo.history[j].id)
    && |repo.history| > 0
  }

  /** A digest prints as 64 hexadecimal digits. Nothing else is known about it. */
  ghost predicate IsDigest(sha256: string -> string) {
    forall content :: IsHex(sha256(content), 64)
  }

  function FileAt(history: seq<Commit>, i: nat, path: string): Option<string>
    requires i < |history|
  {
    if path in history[i].tree then Some(history[i].tree[path]) else None
  }

  function HeadFile(repo: Repo, path: string): Option<string>
    requires Valid(repo)
  {
    FileAt(repo.history, |repo.history| - 1, path)
  }

  /** Whether commit `i` adds, changes or deletes the file. */
  predicate Changes(history: seq<Commit>, i: nat, path: string)
    requires i < |history|
  {
    FileAt(history, i, path) != (if i == 0 then None else FileAt(history, i - 1, path))
  }

  /** The newest commit that changes the file, as `git log -1 HEAD -- path` names it. */
  function LastChange(history: seq<Commit>, path: string): (r: Option<nat>)
    ensures r.Some? <==> exists i :: 0 <= i < |history| && Changes(history, i, path)
    ensures r.Some? ==> r.value < |history| && Changes(history, r.value, path)
    ensures r.Some? ==> forall i :: r.value < i < |history| ==> !Changes(history, i, path)
  {
    if history == [] then None
    else
      var last := |history| - 1;
      if Changes(history, last, path) then Some(last)
      else
        var before := history[..last];
        assert forall i :: 0 <= i < last ==> Changes(before, i, path) == Changes(history, i, path);
        LastChange(before, path)
  }

  function LastCommit(repo: Repo, path: string): Result<string, Error> {
    var i := LastChange(repo.history, path);
    if i.Some? then Ok(repo.history[i.value].id) else Err(NeverChanged(path))
  }

  /** The commit an id names, when it is an ancestor of HEAD or HEAD itself. */
  function IndexOf(history: seq<Commit>, id: string): (r: Option<nat>)
    ensures r.Some? ==> r.value < |history| && history[r.value].id == id
    ensures r.None? ==> forall i :: 0 <= i < |history| ==> history[i].id != id
  {
    if history == [] then None
    else if history[|history| - 1].id == id then Some(|history| - 1)
    else IndexOf(history[..|history| - 1], id)
  }

  function CheckedOutTip(repo: Repo): Result<string, Error>
    requires Valid(repo)
  {
    if repo.shallow then Err(Shallow)
    else if repo.tip.Err? then Err(repo.tip.error)
    else if !IsHex(repo.tip.value, 40) then Err(NoCommitId)
    else if repo.history[|repo.history| - 1].id != repo.tip.value then Err(NotAtTip)
    else Ok(repo.tip.value)
  }

  // ---- The record ----

  /** A decoded JSON value. A number is its value, so `1` and `1.0` are the same. */
  datatype Json = Null | Bool(flag: bool) | Num(number: int) | Fraction(id: nat) | Str(text: string) | List(items: seq<Json>) | Obj(fields: map<string, Json>)

  const SCHEMA := 1
  const RAW_BASE := "https://raw.githubusercontent.com/branchLeft/shared-infra"

  /** The files a host fetches, by the name the record gives each. */
  function Fetched(): (r: seq<(string, string)>)
    ensures |r| == 3 && r[0].0 != r[1].0 && r[0].0 != r[2].0 && r[1].0 != r[2].0
    ensures forall k :: 0 <= k < |r| ==> r[k].0 != "schema" && r[k].0 != "config"
  {
    [("wrapper", "ansible/roles/pull_trigger/files/pull_trigger.py"),
     ("program", "ansible/roles/ansible_runtime/files/install_runtime.py"),
     ("lock", "ansible/requirements.txt")]
  }

  function RawUrl(commit: string, path: string): string {
    RAW_BASE + "/" + commit + "/" + path
  }

  function EntryOf(pin: string, digest: string, path: string): Json {
    Obj(map["pin" := Str(pin), "sha256" := Str(digest), "url" := Str(RawUrl(pin, path))])
  }

  function Field(record: Json, key: string): Option<Json> {
    if record.Obj? && key in record.fields then Some(record.fields[key]) else None
  }

  /** Python's `value == 1`, which `true` passes too. */
  predicate EqualsSchema(value: Option<Json>) {
    value == Some(Num(SCHEMA)) || value == Some(Bool(true))
  }

  datatype Problem =
    | NotSchema | Refused(error: Error) | BadEntry(name: string) | BadPin(name: string) | BadDigest(name: string)
    | WrongUrl(name: string) | NotAncestor(name: string) | WrongDigest(name: string) | StalePin(name: string)
    | EntryRefused(name: string, error: Error) | ConfigDiffers | ConfigRefused(error: Error)

  // ---- The specification ----

  /** An entry is current: it is the one entry whose pin is the commit that last changed a file HEAD still holds. */
  predicate EntryIsCurrent(repo: Repo, sha256: string -> string, path: string, entry: Option<Json>) {
    var i := LastChange(repo.history, path);
    && i.Some?
    && FileAt(repo.history, i.value, path).Some?
    && entry == Some(EntryOf(repo.history[i.value].id, sha256(FileAt(repo.history, i.value, path).value), path))
  }

  /** A record is current: everything it is read for is what the tip of `main` gives. */
  predicate IsCurrent(repo: Repo, sha256: string -> string, record: Json)
    requires Valid(repo)
  {
    && CheckedOutTip(repo).Ok?
    && EqualsSchema(Field(record, "schema"))
    && AllCurrent(repo, sha256, record)
    && repo.config.Ok?
    && Field(record, "config") == Some(Str(repo.config.value))
  }

  /** The entry of every file a host fetches is current. */
  predicate AllCurrent(repo: Repo, sha256: string -> string, record: Json)
    requires Valid(repo)
  {
    forall k :: 0 <= k < |Fetched()| ==> EntryIsCurrent(repo, sha256, Fetched()[k].1, Field(record, Fetched()[k].0))
  }

  // ---- The programs ----

  /** `build_record`: it returns a current record, and refuses only when there is none. */
  method BuildRecord(repo: Repo, sha256: string -> string) returns (r: Result<Json, Error>)
    requires Valid(repo)
    ensures r.Ok? ==> IsCurrent(repo, sha256, r.value)
    ensures r.Ok? ==> r.value.fields.Keys == {"schema", "config"} + set k | 0 <= k < |Fetched()| :: Fetched()[k].0
    ensures r.Ok? ==> Field(r.value, "schema") == Some(Num(SCHEMA))
    ensures r.Err? ==> forall record :: !IsCurrent(repo, sha256, record)
    ensures CheckedOutTip(repo).Err? ==> r == Err(CheckedOutTip(repo).error)
    ensures CheckedOutTip(repo).Ok? && repo.config.Err? ==> r == Err(repo.config.error)
  {
    hide Fetched, CheckedOutTip, EntryIsCurrent;
    var tip := CheckedOutTip(repo);
    if tip.Err? {
      return Err(tip.error);
    }
    if repo.config.Err? {
      return Err(repo.config.error);
    }
    var record := map["schema" := Num(SCHEMA)];
    for k := 0 to |Fetched()|
      invariant record.Keys == {"schema"} + (set j | 0 <= j < k :: Fetched()[j].0)
      invariant record["schema"] == Num(SCHEMA)
      invariant forall j :: 0 <= j < k ==> EntryIsCurrent(repo, sha256, Fetched()[j].1, Some(record[Fetched()[j].0]))
    {
      var (name, path) := Fetched()[k];
      var entry := BuildEntry(repo, sha256, path);
      if entry.Err? {
        return Err(entry.error);
      }
      ghost var before := record;
      record := record[name := entry.value];
      assert forall j :: 0 <= j < k ==> record[Fetched()[j].0] == before[Fetched()[j].0];
    }
    record := record["config" := Str(repo.config.value)];
    return Ok(Obj(record));
  }

  /** One file's entry, from the commit that last changed it. */
  method BuildEntry(repo: Repo, sha256: string -> string, path: string) returns (r: Result<Json, Error>)
    requires Valid(repo)
    ensures r.Ok? ==> EntryIsCurrent(repo, sha256, path, Some(r.value))
    ensures r.Err? ==> forall entry :: !EntryIsCurrent(repo, sha256, path, entry)
  {
    var last := LastCommit(repo, path);
    if last.Err? {
      return Err(last.error);
    }
    var shown := Show(repo, last.value, path);
    if shown.None? {
      return Err(NoSuchFile(path));
    }
    return Ok(EntryOf(last.value, sha256(shown.value), path));
  }

  /** `git show commit:path`. */
  function Show(repo: Repo, commit: string, path: string): (r: Option<string>)
    requires Valid(repo)
    ensures forall i :: 0 <= i < |repo.history| && repo.history[i].id == commit ==> r == FileAt(repo.history, i, path)
  {
    var i := IndexOf(repo.history, commit);
    if i.Some? then FileAt(repo.history, i.value, path) else None
  }

  predicate IsWellFormed(entry: Option<Json>) {
    entry.Some? && entry.value.Obj? && entry.value.fields.Keys == {"pin", "sha256", "url"}
  }

  predicate HasPin(entry: Option<Json>) {
    IsWellFormed(entry) && entry.value.fields["pin"].Str? && IsHex(entry.value.fields["pin"].text, 40)
  }

  /** The pin is an ancestor of HEAD, or HEAD. */
  predicate HasKnownPin(repo: Repo, entry: Option<Json>) {
    HasPin(entry) && IndexOf(repo.history, entry.value.fields["pin"].text).Some?
  }

  /** When each thing is wrong with an entry. */
  predicate IsEntryProblem(repo: Repo, sha256: string -> string, name: string, path: string, entry: Option<Json>, p: Problem)
    requires Valid(repo)
  {
    match p
    case BadEntry(n) => n == name && !IsWellFormed(entry)
    case BadPin(n) => n == name && IsWellFormed(entry) && !HasPin(entry)
    case BadDigest(n) => n == name && HasPin(entry) && !(entry.value.fields["sha256"].Str? && IsHex(entry.value.fields["sha256"].text, 64))
    case WrongUrl(n) => n == name && HasPin(entry) && entry.value.fields["url"] != Str(RawUrl(entry.value.fields["pin"].text, path))
    case NotAncestor(n) => n == name && HasPin(entry) && !HasKnownPin(repo, entry)
    case WrongDigest(n) =>
      n == name && HasKnownPin(repo, entry) &&
      (var shown := Show(repo, entry.value.fields["pin"].text, path);
       shown.None? || entry.value.fields["sha256"] != Str(sha256(shown.value)))
    case StalePin(n) =>
      n == name && HasKnownPin(repo, entry) && LastCommit(repo, path).Ok? && entry.value.fields["pin"] != Str(LastCommit(repo, path).value)
    case _ => false
  }

  /** `verify_entry`: what is wrong with the entry, which is nothing exactly when the entry is current. */
  method VerifyEntry(repo: Repo, sha256: string -> string, name: string, path: string, entry: Option<Json>)
    returns (r: Result<seq<Problem>, Error>)
    requires Valid(repo) && IsDigest(sha256)
    ensures r == Ok([]) <==> EntryIsCurrent(repo, sha256, path, entry)
    ensures r.Err? <==> HasKnownPin(repo, entry) && LastChange(repo.history, path).None?
    ensures r.Err? ==> r.error == NeverChanged(path)
    ensures r.Ok? ==> forall p :: p in r.value <==> IsEntryProblem(repo, sha256, name, path, entry, p)
  {
    hide IsEntryProblem, AllPass, EntryIsCurrent, IsHex, LastCommit, LastChange;
    LastCommitIsTold(repo, path);
    AllPassIsCurrent(repo, sha256, name, path, entry);
    if entry.None? || !entry.value.Obj? || entry.value.fields.Keys != {"pin", "sha256", "url"} {
      r := Ok([BadEntry(name)]);
      MalformedIsAll(repo, sha256, name, path, entry);
    } else {
      var pin := entry.value.fields["pin"];
      if !(pin.Str? && IsHex(pin.text, 40)) {
        r := Ok([BadPin(name)]);
        MalformedIsAll(repo, sha256, name, path, entry);
      } else {
        r := VerifyPinned(repo, sha256, name, path, entry, pin.text, entry.value.fields["sha256"], entry.value.fields["url"]);
      }
    }
    if r.Ok? {
      NoneIsAllPass(repo, sha256, name, path, entry, r.value);
    }
  }

  /** What is checked once the pin is known to be a full commit id. */
  method VerifyPinned(repo: Repo, sha256: string -> string, name: string, path: string, entry: Option<Json>, pin: string, digest: Json, url: Json)
    returns (r: Result<seq<Problem>, Error>)
    requires Valid(repo) && HasPin(entry)
    requires entry.value.fields == map["pin" := Str(pin), "sha256" := digest, "url" := url]
    ensures r.Err? <==> HasKnownPin(repo, entry) && LastCommit(repo, path).Err?
    ensures r.Err? ==> r.error == LastCommit(repo, path).error
    ensures r.Ok? ==> forall p :: p in r.value <==> IsEntryProblem(repo, sha256, name, path, entry, p)
  {
    hide RawUrl, LastCommit, Show, IsHex, IndexOf, Valid;
    var problems := [];
    if !(digest.Str? && IsHex(digest.text, 64)) {
      problems := problems + [BadDigest(name)];
    }
    if url != Str(RawUrl(pin, path)) {
      problems := problems + [WrongUrl(name)];
    }
    if IndexOf(repo.history, pin).None? {
      return Ok(problems + [NotAncestor(name)]);
    }
    var shown := Show(repo, pin, path);
    if shown.None? || digest != Str(sha256(shown.value)) {
      problems := problems + [WrongDigest(name)];
    }
    var last := LastCommit(repo, path);
    if last.Err? {
      return Err(last.error);
    }
    if last.value != pin {
      problems := problems + [StalePin(name)];
    }
    return Ok(problems);
  }

  /** A malformed entry or pin is the only problem there is. */
  lemma MalformedIsAll(repo: Repo, sha256: string -> string, name: string, path: string, entry: Option<Json>)
    requires Valid(repo) && !HasPin(entry)
    ensures forall p :: IsEntryProblem(repo, sha256, name, path, entry, p) <==> p == if IsWellFormed(entry) then BadPin(name) else BadEntry(name)
  {
  }

  lemma NoneIsAllPass(repo: Repo, sha256: string -> string, name: string, path: string, entry: Option<Json>, problems: seq<Problem>)
    requires Valid(repo)
    requires forall p :: p in problems <==> IsEntryProblem(repo, sha256, name, path, entry, p)
    ensures problems == [] <==> AllPass(repo, sha256, name, path, entry)
    ensures problems == [] ==> HasKnownPin(repo, entry)
  {
    EmptyOrNot(problems);
    if AllPass(repo, sha256, name, path, entry) {
      forall p
        ensures !IsEntryProblem(repo, sha256, name, path, entry, p)
      {
      }
    }
  }

  lemma EmptyOrNot(problems: seq<Problem>)
    ensures problems == [] || exists p :: p in problems
  {
    if problems != [] {
      assert problems[0] in problems;
    }
  }

  lemma LastCommitIsTold(repo: Repo, path: string)
    ensures LastCommit(repo, path).Ok? <==> LastChange(repo.history, path).Some?
    ensures LastCommit(repo, path).Err? ==> LastCommit(repo, path).error == NeverChanged(path)
  {
  }

  /** What the checks on an entry come to together. */
  lemma CurrentEntryParts(repo: Repo, sha256: string -> string, path: string, entry: Option<Json>)
    requires Valid(repo)
    ensures LastCommit(repo, path).Ok? ==> IsHex(LastCommit(repo, path).value, 40) && IndexOf(repo.history, LastCommit(repo, path).value).Some?
    ensures EntryIsCurrent(repo, sha256, path, entry) <==>
            && entry.Some? && entry.value.Obj? && entry.value.fields.Keys == {"pin", "sha256", "url"}
            && LastCommit(repo, path).Ok? && entry.value.fields["pin"] == Str(LastCommit(repo, path).value)
            && Show(repo, LastCommit(repo, path).value, path).Some?
            && entry.value.fields["sha256"] == Str(sha256(Show(repo, LastCommit(repo, path).value, path).value))
            && entry.value.fields["url"] == Str(RawUrl(LastCommit(repo, path).value, path))
  {
    hide RawUrl, LastChange, IndexOf, Changes, FileAt, Show;
    if LastCommit(repo, path).Ok? && Show(repo, LastCommit(repo, path).value, path).Some? {
      var pin := LastCommit(repo, path).value;
      var current := EntryOf(pin, sha256(Show(repo, pin, path).value), path);
      if entry.Some? && entry.value.Obj? && entry.value.fields.Keys == current.fields.Keys {
        assert (forall key :: key in current.fields ==> entry.value.fields[key] == current.fields[key]) ==> entry.value.fields == current.fields;
      }
    }
  }

  /** All the checks on an entry pass. */
  predicate AllPass(repo: Repo, sha256: string -> string, name: string, path: string, entry: Option<Json>)
    requires Valid(repo)
  {
    && !IsEntryProblem(repo, sha256, name, path, entry, BadEntry(name))
    && !IsEntryProblem(repo, sha256, name, path, entry, BadPin(name))
    && !IsEntryProblem(repo, sha256, name, path, entry, BadDigest(name))
    && !IsEntryProblem(repo, sha256, name, path, entry, WrongUrl(name))
    && !IsEntryProblem(repo, sha256, name, path, entry, NotAncestor(name))
    && !IsEntryProblem(repo, sha256, name, path, entry, WrongDigest(name))
    && !IsEntryProblem(repo, sha256, name, path, entry, StalePin(name))
  }

  /** An entry is current exactly when every check passes and its file's last commit can be told. */
  lemma AllPassIsCurrent(repo: Repo, sha256: string -> string, name: string, path: string, entry: Option<Json>)
    requires Valid(repo) && IsDigest(sha256)
    ensures EntryIsCurrent(repo, sha256, path, entry) <==> LastCommit(repo, path).Ok? && AllPass(repo, sha256, name, path, entry)
  {
    hide RawUrl, EntryIsCurrent, EntryOf, LastChange, LastCommit, Show, IndexOf, IsHex, Valid;
    CurrentEntryParts(repo, sha256, path, entry);
  }

  /** When each thing is wrong with the `k`th file's entry, an entry that cannot be checked to the end being one problem. */
  predicate IsFileProblem(repo: Repo, sha256: string -> string, record: Json, k: nat, p: Problem)
    requires Valid(repo) && k < |Fetched()|
  {
    var (name, path) := Fetched()[k];
    if HasKnownPin(repo, Field(record, name)) && LastChange(repo.history, path).None? then p == EntryRefused(name, NeverChanged(path))
    else IsEntryProblem(repo, sha256, name, path, Field(record, name), p)
  }

  /** When each thing is wrong with a record. A record that is not the schema, or a checkout that is not main's tip, ends the check. */
  predicate IsProblem(repo: Repo, sha256: string -> string, record: Json, p: Problem)
    requires Valid(repo)
  {
    if !record.Obj? || !EqualsSchema(Field(record, "schema")) then p == NotSchema
    else if CheckedOutTip(repo).Err? then p == Refused(CheckedOutTip(repo).error)
    else
      || (exists k :: 0 <= k < |Fetched()| && IsFileProblem(repo, sha256, record, k, p))
      || (repo.config.Err? && p == ConfigRefused(repo.config.error))
      || (repo.config.Ok? && Field(record, "config") != Some(Str(repo.config.value)) && p == ConfigDiffers)
  }

  /** `verify_record`: what is wrong with the record, which is nothing exactly when it is current. */
  method VerifyRecord(repo: Repo, sha256: string -> string, record: Json) returns (problems: seq<Problem>)
    requires Valid(repo) && IsDigest(sha256)
    ensures problems == [] <==> IsCurrent(repo, sha256, record)
    ensures forall p :: p in problems <==> IsProblem(repo, sha256, record, p)
  {
    hide Fetched, CheckedOutTip, EntryIsCurrent, IsFileProblem, EqualsSchema;
    problems := [];
    if !record.Obj? || !EqualsSchema(Field(record, "schema")) {
      return [NotSchema];
    }
    var tip := CheckedOutTip(repo);
    if tip.Err? {
      return [Refused(tip.error)];
    }
    for k := 0 to |Fetched()|
      invariant problems == [] <==>
                forall j :: 0 <= j < k ==> EntryIsCurrent(repo, sha256, Fetched()[j].1, Field(record, Fetched()[j].0))
      invariant forall p :: p in problems <==> exists j :: 0 <= j < k && IsFileProblem(repo, sha256, record, j, p)
    {
      var found := VerifyFile(repo, sha256, record, k);
      problems := problems + found;
    }
    if repo.config.Err? {
      problems := problems + [ConfigRefused(repo.config.error)];
    } else if Field(record, "config") != Some(Str(repo.config.value)) {
      problems := problems + [ConfigDiffers];
    }
  }

  /** One file of the record's loop. */
  method VerifyFile(repo: Repo, sha256: string -> string, record: Json, k: nat) returns (problems: seq<Problem>)
    requires Valid(repo) && IsDigest(sha256) && k < |Fetched()|
    ensures problems == [] <==> EntryIsCurrent(repo, sha256, Fetched()[k].1, Field(record, Fetched()[k].0))
    ensures forall p :: p in problems <==> IsFileProblem(repo, sha256, record, k, p)
  {
    hide Fetched, EntryIsCurrent, IsEntryProblem, HasKnownPin, LastChange, Field;
    var (name, path) := Fetched()[k];
    var found := VerifyEntry(repo, sha256, name, path, Field(record, name));
    if found.Ok? {
      return found.value;
    }
    return [EntryRefused(name, found.error)];
  }

  // ---- What a current record tells a host ----

  /** A file no later commit changes is the same at every later commit. */
  lemma {:induction false} UnchangedSince(history: seq<Commit>, i: nat, j: nat, path: string)
    requires i <= j < |history|
    requires forall k :: i < k < |history| ==> !Changes(history, k, path)
    ensures FileAt(history, j, path) == FileAt(history, i, path)
  {
    if i < j {
      assert !Changes(history, j, path);
      UnchangedSince(history, i, j - 1, path);
    }
  }

  /** A file HEAD holds was changed by some commit. */
  lemma {:induction false} HeldFileWasChanged(history: seq<Commit>, i: nat, path: string)
    requires i < |history| && FileAt(history, i, path).Some?
    ensures LastChange(history, path).Some?
  {
    if !Changes(history, i, path) {
      HeldFileWasChanged(history, i - 1, path);
    }
  }

  /** What a current record gives: the file at each pin is the file at the tip, and its digest and address are that file's. */
  lemma PinnedFileIsTheTips(repo: Repo, sha256: string -> string, record: Json, k: nat) returns (pin: string)
    requires Valid(repo) && IsCurrent(repo, sha256, record) && k < |Fetched()|
    ensures HeadFile(repo, Fetched()[k].1).Some?
    ensures Show(repo, pin, Fetched()[k].1) == HeadFile(repo, Fetched()[k].1)
    ensures Field(record, Fetched()[k].0) == Some(EntryOf(pin, sha256(HeadFile(repo, Fetched()[k].1).value), Fetched()[k].1))
  {
    hide Fetched, CheckedOutTip, EqualsSchema, EntryIsCurrent, EntryOf, Show, HeadFile;
    pin := CurrentEntryIsTheTips(repo, sha256, Fetched()[k].1, Field(record, Fetched()[k].0));
  }

  lemma CurrentEntryIsTheTips(repo: Repo, sha256: string -> string, path: string, entry: Option<Json>) returns (pin: string)
    requires Valid(repo) && EntryIsCurrent(repo, sha256, path, entry)
    ensures HeadFile(repo, path).Some? && Show(repo, pin, path) == HeadFile(repo, path)
    ensures entry == Some(EntryOf(pin, sha256(HeadFile(repo, path).value), path))
  {
    hide RawUrl, EntryOf, LastChange, IndexOf, Changes, FileAt, Show;
    var i := LastChange(repo.history, path).value;
    UnchangedSince(repo.history, i, |repo.history| - 1, path);
    pin := repo.history[i].id;
  }

  /** The producer and the checker agree on one record: two current records hold the same entries and configuration. */
  lemma CurrentRecordsAgree(repo: Repo, sha256: string -> string, one: Json, other: Json)
    requires Valid(repo) && IsCurrent(repo, sha256, one) && IsCurrent(repo, sha256, other)
    ensures forall k :: 0 <= k < |Fetched()| ==> Field(one, Fetched()[k].0) == Field(other, Fetched()[k].0)
    ensures Field(one, "config") == Field(other, "config")
  {
    forall k | 0 <= k < |Fetched()|
      ensures Field(one, Fetched()[k].0) == Field(other, Fetched()[k].0)
    {
      assert EntryIsCurrent(repo, sha256, Fetched()[k].1, Field(one, Fetched()[k].0));
    }
  }

  /** `true` is taken for the schema's 1: a current record with its schema replaced by `true` is current still. */
  lemma TrueSchemaIsCurrent(repo: Repo, sha256: string -> string, record: Json)
    requires Valid(repo) && IsCurrent(repo, sha256, record)
    ensures IsCurrent(repo, sha256, Obj(record.fields["schema" := Bool(true)]))
  {
    hide Fetched, CheckedOutTip, EntryIsCurrent;
    var other := Obj(record.fields["schema" := Bool(true)]);
    forall k | 0 <= k < |Fetched()|
      ensures EntryIsCurrent(repo, sha256, Fetched()[k].1, Field(other, Fetched()[k].0))
    {
      assert Field(other, Fetched()[k].0) == Field(record, Fetched()[k].0);
    }
  }

  /** A current record has schema 1 exactly when its schema is not `true`. */
  lemma CurrentSchemaIsOne(repo: Repo, sha256: string -> string, record: Json)
    requires Valid(repo) && IsCurrent(repo, sha256, record)
    ensures Field(record, "schema") == Some(Num(SCHEMA)) <==> Field(record, "schema") != Some(Bool(true))
  {
  }

  /** There is a current record exactly when HEAD is main's whole, freshly fetched tip, the configuration renders and HEAD holds all three files. */
  lemma CurrentRecordExists(repo: Repo, sha256: string -> string)
    requires Valid(repo)
    ensures (exists record :: IsCurrent(repo, sha256, record)) <==>
            && CheckedOutTip(repo).Ok? && repo.config.Ok?
            && forall k :: 0 <= k < |Fetched()| ==> HeadFile(repo, Fetched()[k].1).Some?
  {
    hide Fetched, CheckedOutTip, EntryIsCurrent;
    if record :| IsCurrent(repo, sha256, record) {
      forall k | 0 <= k < |Fetched()|
        ensures HeadFile(repo, Fetched()[k].1).Some?
      {
        var _ := PinnedFileIsTheTips(repo, sha256, record, k);
      }
    }
    if CheckedOutTip(repo).Ok? && repo.config.Ok? && forall k :: 0 <= k < |Fetched()| ==> HeadFile(repo, Fetched()[k].1).Some? {
      HeadRecordIsCurrent(repo, sha256);
    }
  }

  function HeadRecord(repo: Repo, sha256: string -> string): Json
    requires Valid(repo) && repo.config.Ok?
    requires forall k :: 0 <= k < |Fetched()| ==> HeadFile(repo, Fetched()[k].1).Some?
  {
    Obj(map[
      "schema" := Num(SCHEMA), "config" := Str(repo.config.value),
      Fetched()[0].0 := HeadEntry(repo, sha256, Fetched()[0].1),
      Fetched()[1].0 := HeadEntry(repo, sha256, Fetched()[1].1),
      Fetched()[2].0 := HeadEntry(repo, sha256, Fetched()[2].1)])
  }

  lemma HeadRecordIsCurrent(repo: Repo, sha256: string -> string)
    requires Valid(repo) && CheckedOutTip(repo).Ok? && repo.config.Ok?
    requires forall k :: 0 <= k < |Fetched()| ==> HeadFile(repo, Fetched()[k].1).Some?
    ensures IsCurrent(repo, sha256, HeadRecord(repo, sha256))
  {
    hide Fetched, CheckedOutTip, EntryIsCurrent, HeadEntry;
    var record := HeadRecord(repo, sha256);
    forall k | 0 <= k < |Fetched()|
      ensures EntryIsCurrent(repo, sha256, Fetched()[k].1, Field(record, Fetched()[k].0))
    {
      HeadEntryIsCurrent(repo, sha256, Fetched()[k].1);
    }
  }

  /** The entry of a file HEAD holds. */
  function HeadEntry(repo: Repo, sha256: string -> string, path: string): Json
    requires Valid(repo) && HeadFile(repo, path).Some?
  {
    HeldFileWasChanged(repo.history, |repo.history| - 1, path);
    EntryOf(repo.history[LastChange(repo.history, path).value].id, sha256(HeadFile(repo, path).value), path)
  }

  lemma HeadEntryIsCurrent(repo: Repo, sha256: string -> string, path: string)
    requires Valid(repo) && HeadFile(repo, path).Some?
    ensures EntryIsCurrent(repo, sha256, path, Some(HeadEntry(repo, sha256, path)))
  {
    HeldFileWasChanged(repo.history, |repo.history| - 1, path);
    UnchangedSince(repo.history, LastChange(repo.history, path).value, |repo.history| - 1, path);
  }

  /** `repo` after one more commit reaches `main` and is checked out, rendering the given configuration. */
  function Extended(repo: Repo, commit: Commit, config: Result<string, Error>): Repo {
    repo.(history := repo.history + [commit], tip := Ok(commit.id), config := config)
  }

  /**
   When a record goes stale: after one more commit on `main`, a current record is still current if and only if the
   commit leaves all three files as they were and the files still render the same configuration.
   */
  lemma RecordOutlivesCommit(repo: Repo, sha256: string -> string, record: Json, commit: Commit, config: Result<string, Error>)
    requires Valid(repo) && IsCurrent(repo, sha256, record)
    requires Valid(Extended(repo, commit, config))
    ensures IsCurrent(Extended(repo, commit, config), sha256, record) <==>
            && config == repo.config
            && forall k :: 0 <= k < |Fetched()| ==> !Changes(repo.history + [commit], |repo.history|, Fetched()[k].1)
  {
    var later := Extended(repo, commit, config);
    assert later.history[|repo.history|] == commit;
    forall k | 0 <= k < |Fetched()|
      ensures EntryIsCurrent(later, sha256, Fetched()[k].1, Field(record, Fetched()[k].0)) <==>
              !Changes(later.history, |repo.history|, Fetched()[k].1)
    {
      assert EntryIsCurrent(repo, sha256, Fetched()[k].1, Field(record, Fetched()[k].0));
      EntryOutlivesCommit(repo, sha256, Fetched()[k].1, Field(record, Fetched()[k].0), later);
    }
  }

  lemma EntryOutlivesCommit(repo: Repo, sha256: string -> string, path: string, entry: Option<Json>, later: Repo)
    requires Valid(repo) && Valid(later) && |later.history| == |repo.history| + 1
    requires later.history[..|repo.history|] == repo.history
    requires EntryIsCurrent(repo, sha256, path, entry)
    ensures EntryIsCurrent(later, sha256, path, entry) <==> !Changes(later.history, |repo.history|, path)
  {
    var i := LastChange(repo.history, path).value;
    var n := |repo.history|;
    assert LastChange(later.history, path) == if Changes(later.history, n, path) then Some(n) else Some(i);
    assert later.history[i] == later.history[..n][i] == repo.history[i];
    if Changes(later.history, n, path) {
      assert entry.value.fields["pin"] == Str(repo.history[i].id);
      assert later.history[n].id != later.history[i].id;
    }
  }

  // ---- A current record, field by field ----

  /** Commit `i` is where the file became what it is at HEAD. */
  ghost predicate SettledAt(history: seq<Commit>, i: nat, path: string) {
    && i < |history| && path in history[i].tree
    && (forall j :: i <= j < |history| ==> path in history[j].tree && history[j].tree[path] == history[i].tree[path])
    && (i > 0 && path in history[i - 1].tree ==> history[i - 1].tree[path] != history[i].tree[path])
  }

  ghost predicate NamesSettled(repo: Repo, sha256: string -> string, path: string, entry: Option<Json>, i: nat) {
    && SettledAt(repo.history, i, path)
    && entry == Some(Obj(map[
         "pin" := Str(repo.history[i].id),
         "sha256" := Str(sha256(repo.history[i].tree[path])),
         "url" := Str("https://raw.githubusercontent.com/branchLeft/shared-infra/" + repo.history[i].id + "/" + path)]))
  }

  /** An entry is current exactly when it holds the commit where the file became what it is, its digest there and the address of that commit's file. */
  lemma EntryIsExact(repo: Repo, sha256: string -> string, path: string, entry: Option<Json>)
    requires Valid(repo)
    ensures EntryIsCurrent(repo, sha256, path, entry) <==> exists i: nat :: NamesSettled(repo, sha256, path, entry, i)
  {
    var history := repo.history;
    hide LastChange, RawUrl, FileAt, SettledAt, Valid;
    var last := LastChange(history, path);
    if last.Some? && FileAt(history, last.value, path).Some? {
      LastIsSettled(history, path);
      AddressIsSpelled(history[last.value].id, path);
      if EntryIsCurrent(repo, sha256, path, entry) {
        assert NamesSettled(repo, sha256, path, entry, last.value);
      }
    }
    if i: nat :| NamesSettled(repo, sha256, path, entry, i) {
      SettledIsLast(history, i, path);
      AddressIsSpelled(history[i].id, path);
    }
  }

  lemma LastIsSettled(history: seq<Commit>, path: string)
    requires LastChange(history, path).Some? && FileAt(history, LastChange(history, path).value, path).Some?
    ensures var last := LastChange(history, path).value;
            SettledAt(history, last, path) && FileAt(history, last, path) == Some(history[last].tree[path])
  {
    var last := LastChange(history, path).value;
    forall j | last <= j < |history|
      ensures FileAt(history, j, path) == FileAt(history, last, path)
    {
      UnchangedSince(history, last, j, path);
    }
  }

  /** The digits of a commit id or a digest are those of lower-case hexadecimal. */
  lemma HexIsExact(s: string, length: nat)
    ensures IsHex(s, length) <==> |s| == length && forall c :: c in s ==> c in "0123456789abcdef"
  {
    if IsHex(s, length) {
      forall c | c in s
        ensures c in "0123456789abcdef"
      {
        HexDigit(c);
      }
    }
    if |s| == length && forall c :: c in s ==> c in "0123456789abcdef" {
      forall i | 0 <= i < length
        ensures '0' <= s[i] <= '9' || 'a' <= s[i] <= 'f'
      {
        HexDigit(s[i]);
      }
    }
  }

  lemma HexDigit(c: char)
    ensures '0' <= c <= '9' || 'a' <= c <= 'f' <==> c in "0123456789abcdef"
  {
    var digits := "0123456789abcdef";
    if '0' <= c <= '9' {
      assert digits[c as int - '0' as int] == c;
    } else if 'a' <= c <= 'f' {
      assert digits[c as int - 'a' as int + 10] == c;
    }
  }

  lemma AddressIsSpelled(commit: string, path: string)
    ensures RawUrl(commit, path) == "https://raw.githubusercontent.com/branchLeft/shared-infra/" + commit + "/" + path
  {
    assert RAW_BASE + "/" == "https://raw.githubusercontent.com/branchLeft/shared-infra/";
  }

  lemma SettledIsLast(history: seq<Commit>, i: nat, path: string)
    requires SettledAt(history, i, path)
    ensures LastChange(history, path) == Some(i) && FileAt(history, i, path) == Some(history[i].tree[path])
  {
    assert Changes(history, i, path);
    forall j | i < j < |history|
      ensures !Changes(history, j, path)
    {
      assert history[j].tree[path] == history[i].tree[path] == history[j - 1].tree[path];
    }
  }

  /** The checkout is HEAD of a whole clone and the remote's `main` is that very commit. */
  ghost predicate IsWholeTip(repo: Repo)
    requires Valid(repo)
  {
    !repo.shallow && repo.tip == Ok(repo.history[|repo.history| - 1].id)
  }

  /** Why a checkout is refused. */
  lemma TipIsExact(repo: Repo)
    requires Valid(repo)
    ensures CheckedOutTip(repo).Ok? <==> IsWholeTip(repo)
    ensures CheckedOutTip(repo) == Err(Shallow) <==> repo.shallow || repo.tip == Err(Shallow)
    ensures CheckedOutTip(repo) == Err(NotAtTip) <==>
            !repo.shallow && (repo.tip == Err(NotAtTip) ||
                              (repo.tip.Ok? && IsHex(repo.tip.value, 40) && repo.tip.value != repo.history[|repo.history| - 1].id))
    ensures CheckedOutTip(repo).Ok? ==> CheckedOutTip(repo).value == repo.history[|repo.history| - 1].id
  {
  }

  ghost predicate HoldsFile(repo: Repo, sha256: string -> string, record: Json, name: string, path: string) {
    record.Obj? && name in record.fields && exists i: nat :: NamesSettled(repo, sha256, path, Some(record.fields[name]), i)
  }

  /** The three files a host fetches, by the names the record gives them. */
  ghost predicate HoldsFiles(repo: Repo, sha256: string -> string, record: Json) {
    && HoldsFile(repo, sha256, record, "wrapper", "ansible/roles/pull_trigger/files/pull_trigger.py")
    && HoldsFile(repo, sha256, record, "program", "ansible/roles/ansible_runtime/files/install_runtime.py")
    && HoldsFile(repo, sha256, record, "lock", "ansible/requirements.txt")
  }

  /**
   A record is current exactly when HEAD is the remote's tip in a whole clone, the schema is the number 1 or `true`, the
   configuration is the one rendered, and the three files each have the pin, digest and address HEAD gives.
   */
  lemma RecordIsExact(repo: Repo, sha256: string -> string, record: Json)
    requires Valid(repo)
    ensures IsCurrent(repo, sha256, record) <==>
            && IsWholeTip(repo) && HoldsFiles(repo, sha256, record)
            && record.Obj? && "schema" in record.fields && "config" in record.fields
            && (record.fields["schema"] == Num(1) || record.fields["schema"] == Bool(true))
            && repo.config.Ok? && record.fields["config"] == Str(repo.config.value)
  {
    TipIsExact(repo);
    FilesAreExact(repo, sha256, record);
    hide CheckedOutTip, IsWholeTip, AllCurrent, HoldsFiles, Fetched, Valid;
  }

  lemma FilesAreExact(repo: Repo, sha256: string -> string, record: Json)
    requires Valid(repo)
    ensures AllCurrent(repo, sha256, record) <==> HoldsFiles(repo, sha256, record)
  {
    hide EntryIsCurrent, Field, HoldsFile;
    var files := Fetched();
    assert files[0] == ("wrapper", "ansible/roles/pull_trigger/files/pull_trigger.py");
    assert files[1] == ("program", "ansible/roles/ansible_runtime/files/install_runtime.py");
    assert files[2] == ("lock", "ansible/requirements.txt");
    hide Fetched;
    forall k | 0 <= k < |files|
      ensures EntryIsCurrent(repo, sha256, files[k].1, Field(record, files[k].0)) <==> HoldsFile(repo, sha256, record, files[k].0, files[k].1)
    {
      FieldIsExact(repo, sha256, record, files[k].0, files[k].1);
    }
    assert (forall k :: 0 <= k < |files| ==> EntryIsCurrent(repo, sha256, files[k].1, Field(record, files[k].0))) <==>
           && EntryIsCurrent(repo, sha256, files[0].1, Field(record, files[0].0))
           && EntryIsCurrent(repo, sha256, files[1].1, Field(record, files[1].0))
           && EntryIsCurrent(repo, sha256, files[2].1, Field(record, files[2].0));
  }

  lemma FieldIsExact(repo: Repo, sha256: string -> string, record: Json, name: string, path: string)
    requires Valid(repo)
    ensures EntryIsCurrent(repo, sha256, path, Field(record, name)) <==> HoldsFile(repo, sha256, record, name, path)
  {
    EntryIsExact(repo, sha256, path, Field(record, name));
    hide EntryIsCurrent, SettledAt;
  }
}
