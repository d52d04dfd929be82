/**
 * The self-updater (updater.py): the decision `check_and_download` takes over the
 * settings file, the latest-release response, the archive download and the
 * saving of main.zip, and the sequencing `update` performs on its outcome.
 * Network, disk and clock are inputs.
 */
module Updater {
  import opened Wrappers
  import opened Strings

  /** The release asset the updater looks for, and the local file it downloads to. */
  const ArchiveName := "main.zip"
  const UnknownError := "unknown error"

  /** The numeric outcomes of `check_and_download`. */
  datatype Code = DownloadReady | NoUpdate | AssetMissing | Failed {
    function Value(): int {
      match this
      case DownloadReady => 1
      case NoUpdate => 0
      case AssetMissing => -2
      case Failed => -1
    }
  }

  /** The `error_codes` table: a text for each failure code (1 has none). */
  const ErrorCodes: map<int, string> := map[
    -1 := "an error occurred during the update process.",
    -2 := "the target file was not found in the release assets.",
    0 := "no updates found."
  ]

  /** `error_codes.get(result, 'unknown error')`, where `result` may be None. */
  function Describe(result: Option<Code>): (text: string)
    ensures text == UnknownError <==> result == None || result == Some(DownloadReady)
    ensures result.Some? && result.value != DownloadReady ==> result.value.Value() in ErrorCodes && text == ErrorCodes[result.value.Value()]
  {
    if result.Some? && result.value.Value() in ErrorCodes then ErrorCodes[result.value.Value()] else UnknownError
  }

  /** How an f-string renders an optional string: None prints as "None". */
  function Show(v: Option<string>): string {
    if v.Some? then v.value else "None"
  }

  function ShowResult(result: Option<Code>): string {
    match result
    case None => "None"
    case Some(DownloadReady) => "1"
    case Some(NoUpdate) => "0"
    case Some(AssetMissing) => "-2"
    case Some(Failed) => "-1"
  }

  // ---------------------------------------------------------------------------
  // The log buffer

  const EntryPrefix := "[updater.py] - ["

  /** One line of the log: `[updater.py] - [<stamp>]: <message>`. */
  function Entry(stamp: string, message: string): string {
    EntryPrefix + stamp + "]: " + message
  }

  /** A timestamp as `strftime('%Y-%m-%d %H:%M:%S')` renders it never contains `]`. */
  predicate StampShaped(stamp: string) {
    forall i :: 0 <= i < |stamp| ==> stamp[i] != ']'
  }

  function IndexOf(s: string, c: char): (k: nat)
    ensures k <= |s|
    ensures k < |s| ==> s[k] == c
    ensures forall i :: 0 <= i < k ==> s[i] != c
  {
    if s == [] then 0 else if s[0] == c then 0 else 1 + IndexOf(s[1..], c)
  }

  /** Reads a log line back into its timestamp and message. */
  function ParseEntry(e: string): Option<(string, string)> {
    if !StartsWith(e, EntryPrefix) then None
    else
      var rest := e[|EntryPrefix|..];
      var k := IndexOf(rest, ']');
      if k + 3 <= |rest| && rest[k..k + 3] == "]: " then Some((rest[..k], rest[k + 3..])) else None
  }

  /** A log line gives back exactly the timestamp and message it was made from. */
  lemma EntryRoundTrip(stamp: string, message: string)
    requires StampShaped(stamp)
    ensures ParseEntry(Entry(stamp, message)) == Some((stamp, message))
  {
    var e := Entry(stamp, message);
    assert StartsWith(e, EntryPrefix);
    var rest := e[|EntryPrefix|..];
    assert rest == stamp + "]: " + message;
    var k := IndexOf(rest, ']');
    assert rest[|stamp|] == ']';
    assert forall i :: 0 <= i < |stamp| ==> rest[i] == stamp[i] && rest[i] != ']';
    assert k == |stamp|;
    assert rest[k..k + 3] == "]: ";
    assert rest[..k] == stamp;
    assert rest[k + 3..] == message;
  }

  /** `_log`: appends exactly one entry and leaves the earlier ones as they were. */
  function Log(log: seq<string>, stamp: string, message: string): (r: seq<string>)
    ensures |r| == |log| + 1 && r[..|log|] == log
    ensures StampShaped(stamp) ==> ParseEntry(r[|log|]) == Some((stamp, message))
  {
    if StampShaped(stamp) then EntryRoundTrip(stamp, message); log + [Entry(stamp, message)]
    else log + [Entry(stamp, message)]
  }

  /**
   * Logs `messages` one `_log` call at a time; `clock(n)` is the time the entry
   * at position n of the buffer was made.
   */
  function LogAll(log: seq<string>, messages: seq<string>, clock: nat -> string): (r: seq<string>)
    ensures |r| == |log| + |messages|
    ensures r[..|log|] == log
    ensures forall k :: 0 <= k < |messages| ==> r[|log| + k] == Entry(clock(|log| + k), messages[k])
    decreases |messages|
  {
    if messages == [] then log
    else LogAll(Log(log, clock(|log|), messages[0]), messages[1..], clock)
  }

  // ---------------------------------------------------------------------------
  // Inputs of one check

  /** A JSON object member: missing, `null`, or present with a value. */
  datatype Member<T> = Absent | Null | Present(value: T)

  datatype Asset = Asset(name: Member<string>, url: Member<string>)

  /**
   * The latest-release document: `tag_name` (None when missing or null) and the
   * `assets` member as it was sent.
   */
  datatype Release = Release(tagName: Option<string>, assets: Member<seq<Asset>>)

  /** A network step (request, status check, JSON decode) either yields a value or raises. */
  datatype Response<T> = Ok(value: T) | Raised(error: string)

  /**
   * settings.json: missing (FileNotFoundError, handled), unreadable (any other
   * error while loading it, not handled), or parsed with its `current_ver`.
   */
  datatype SettingsFile = NotFound | Unreadable | Parsed(currentVer: Option<string>)

  /**
   * What the outside world would do during one check: the release query, the
   * archive download, and the error raised by opening or writing main.zip
   * (None when saving it works).
   */
  datatype Remote = Remote(release: Response<Release>, download: Response<Bytes>, save: Option<string>)

  /**
   * main.zip after the check: not opened, opened for writing but the write
   * raised (it may now be created, truncated or partly written), or written in full.
   */
  datatype ArchiveFile = Untouched | Damaged | Complete(bytes: Bytes)

  // ---------------------------------------------------------------------------
  // Choosing the archive asset

  /** The asset loop moves past this asset: it has a name, and the name is not main.zip. */
  predicate PassedOver(a: Asset) {
    a.name != Absent && a.name != Present(ArchiveName)
  }

  /** Indexing the first asset that stops the loop raises KeyError for `key`. */
  predicate RaisesKeyError(a: Asset, key: string) {
    || (a.name == Absent && key == "name")
    || (a.name == Present(ArchiveName) && a.url == Absent && key == "browser_download_url")
  }

  function AsMember(url: Option<string>): Member<string> {
    if url.Some? then Present(url.value) else Null
  }

  /** Result of the asset loop: a KeyError, no match, or the first match and its URL (None for null). */
  datatype Scan = KeyMissing(key: string) | NoMatch | Match(index: nat, url: Option<string>)

  function FindFrom(assets: seq<Asset>, from: nat): (r: Scan)
    requires from <= |assets|
    ensures r.Match? ==>
      && from <= r.index < |assets|
      && assets[r.index].name == Present(ArchiveName)
      && assets[r.index].url == AsMember(r.url)
      && forall j :: from <= j < r.index ==> PassedOver(assets[j])
    ensures r == NoMatch <==> forall j :: from <= j < |assets| ==> PassedOver(assets[j])
    ensures r.KeyMissing? ==>
      exists i :: from <= i < |assets| && RaisesKeyError(assets[i], r.key) && forall j :: from <= j < i ==> PassedOver(assets[j])
    decreases |assets| - from
  {
    if from == |assets| then NoMatch
    else
      var a := assets[from];
      if a.name == Absent then KeyMissing("name")
      else if a.name != Present(ArchiveName) then FindFrom(assets, from + 1)
      else
        match a.url
        case Absent => KeyMissing("browser_download_url")
        case Null => Match(from, None)
        case Present(u) => Match(from, Some(u))
  }

  /** The `for asset in assets` loop: stops at the first asset named main.zip. */
  function FindArchive(assets: seq<Asset>): Scan {
    FindFrom(assets, 0)
  }

  /** What `latest_release.get('assets', [])` iterates over when it is not null. */
  function Items(assets: Member<seq<Asset>>): seq<Asset> {
    if assets.Present? then assets.value else []
  }

  // ---------------------------------------------------------------------------
  // check_and_download

  /** What `check_and_download` did: returned a code (None for a missing settings file) or raised. */
  datatype Outcome = Crashed | Returned(code: Option<Code>)

  /** The outcome, the messages passed to `_log` in order, and the state of main.zip. */
  datatype CheckRun = CheckRun(result: Outcome, messages: seq<string>, archive: ArchiveFile)

  const SettingsMissing := "settings.json not found! exit..."
  const NothingNew := "no updates found."
  const ArchiveAbsent := "main.zip not found in release assets!"
  const DownloadDone := "download complete! (main.zip)"
  /** The TypeError text for iterating over a null `assets` member. */
  const NotIterable := "'NoneType' object is not iterable"

  function Intro(current: Option<string>): string {
    "current version is " + Show(current) + "\nchecking for updates..."
  }

  function NewVersion(tag: Option<string>): string {
    "new version found! " + Show(tag) + ", preparing to update..."
  }

  function Downloading(url: string): string {
    "downloading main.zip from " + url + "..."
  }

  function ErrorLine(error: string): string {
    "an error occurred: " + error + "."
  }

  /** The first main.zip asset carries a URL that Python finds truthy. */
  predicate Downloadable(s: Scan) {
    s.Match? && s.url.Some? && s.url.value != ""
  }

  /** The release is newer and names a usable main.zip asset, so the download is attempted. */
  predicate StartsDownload(current: Option<string>, release: Release) {
    && release.tagName != current
    && release.assets != Null
    && Downloadable(FindArchive(Items(release.assets)))
  }

  function CheckAndDownload(settings: SettingsFile, remote: Remote): (r: CheckRun)
    ensures r.result == Crashed <==> settings == Unreadable
    ensures r.result == Returned(None) <==> settings == NotFound
    ensures r.archive.Complete? <==> r.result == Returned(Some(DownloadReady))
    ensures r.archive.Complete? ==> remote.download == Ok(r.archive.bytes)
    ensures r.archive == Damaged <==>
      && settings.Parsed? && remote.release.Ok? && StartsDownload(settings.currentVer, remote.release.value)
      && remote.download.Ok? && remote.save.Some?
    ensures settings.Parsed? && remote.release.Raised? ==> r.result == Returned(Some(Failed))
    ensures r.result == Returned(Some(NoUpdate)) <==>
      settings.Parsed? && remote.release.Ok? && remote.release.value.tagName == settings.currentVer
    ensures r.result == Returned(Some(AssetMissing)) <==>
      && settings.Parsed? && remote.release.Ok? && remote.release.value.tagName != settings.currentVer
      && remote.release.value.assets != Null
      && var scan := FindArchive(Items(remote.release.value.assets)); (scan.NoMatch? || (scan.Match? && !Downloadable(scan)))
    ensures r.result == Returned(Some(DownloadReady)) <==>
      && settings.Parsed? && remote.release.Ok? && StartsDownload(settings.currentVer, remote.release.value)
      && remote.download.Ok? && remote.save.None?
  {
    match settings
    case NotFound => CheckRun(Returned(None), [SettingsMissing], Untouched)
    case Unreadable => CheckRun(Crashed, [], Untouched)
    case Parsed(current) =>
      var intro := Intro(current);
      match remote.release
      case Raised(e) => CheckRun(Returned(Some(Failed)), [intro, ErrorLine(e)], Untouched)
      case Ok(release) =>
        if release.tagName == current then
          CheckRun(Returned(Some(NoUpdate)), [intro, NothingNew], Untouched)
        else
          var found := NewVersion(release.tagName);
          if release.assets == Null then
            CheckRun(Returned(Some(Failed)), [intro, found, ErrorLine(NotIterable)], Untouched)
          else
            var scan := FindArchive(Items(release.assets));
            if scan.KeyMissing? then
              CheckRun(Returned(Some(Failed)), [intro, found, ErrorLine("'" + scan.key + "'")], Untouched)
            else if !Downloadable(scan) then
              CheckRun(Returned(Some(AssetMissing)), [intro, found, ArchiveAbsent], Untouched)
            else
              var fetching := Downloading(scan.url.value);
              match remote.download
              case Raised(e) => CheckRun(Returned(Some(Failed)), [intro, found, fetching, ErrorLine(e)], Untouched)
              case Ok(data) =>
                if remote.save.Some? then
                  CheckRun(Returned(Some(Failed)), [intro, found, fetching, ErrorLine(remote.save.value)], Damaged)
                else
                  CheckRun(Returned(Some(DownloadReady)), [intro, found, fetching, DownloadDone], Complete(data))
  }

  /**
   * A null `assets` member is only read after the tag test and the "new version"
   * line: iterating over it raises TypeError, so the outcome is -1.
   */
  lemma NullAssetsFail(current: Option<string>, tag: Option<string>, remote: Remote)
    requires tag != current && remote.release == Ok(Release(tag, Null))
    ensures var r := CheckAndDownload(Parsed(current), remote);
      && r.result == Returned(Some(Failed))
      && r.messages == [Intro(current), NewVersion(tag), ErrorLine(NotIterable)]
      && r.archive == Untouched
  {
  }

  /** With no asset named main.zip the file is not touched, and the outcome is -2 unless an asset lacks its name. */
  lemma NoArchiveAssetMeansMissing(current: Option<string>, release: Release, remote: Remote)
    requires remote.release == Ok(release) && release.tagName != current && release.assets != Null
    requires forall i :: 0 <= i < |Items(release.assets)| ==> Items(release.assets)[i].name != Present(ArchiveName)
    ensures var r := CheckAndDownload(Parsed(current), remote);
      && r.archive == Untouched
      && (r.result == Returned(Some(AssetMissing)) || r.result == Returned(Some(Failed)))
      && ((forall i :: 0 <= i < |Items(release.assets)| ==> Items(release.assets)[i].name != Absent) ==> r.result == Returned(Some(AssetMissing)))
  {
  }

  /**
   * Only the first main.zip asset is looked at: when its URL is null or empty
   * the outcome is -2, even though a later main.zip asset has a usable URL.
   */
  lemma OnlyFirstArchiveAssetCounts(current: Option<string>, assets: seq<Asset>, remote: Remote, i: nat, j: nat)
    requires remote.release.Ok? && remote.release.value.tagName != current && remote.release.value.assets == Present(assets)
    requires i < j < |assets|
    requires forall k :: 0 <= k < i ==> PassedOver(assets[k])
    requires assets[i].name == Present(ArchiveName)
    requires assets[i].url == Null || assets[i].url == Present("")
    requires assets[j].name == Present(ArchiveName) && assets[j].url.Present? && assets[j].url.value != ""
    ensures var r := CheckAndDownload(Parsed(current), remote);
      r.result == Returned(Some(AssetMissing)) && r.archive == Untouched
  {
    assert !PassedOver(assets[i]);
  }

  /**
   * A failure in the release request or the download gives -1 and leaves
   * main.zip alone; a failure while opening or writing main.zip gives -1 and
   * leaves it damaged.
   */
  lemma ExceptionMeansError(current: Option<string>, remote: Remote)
    requires || remote.release.Raised?
             || (remote.release.Ok? && StartsDownload(current, remote.release.value) && (remote.download.Raised? || remote.save.Some?))
    ensures var r := CheckAndDownload(Parsed(current), remote);
      && r.result == Returned(Some(Failed))
      && (r.archive == Damaged <==> remote.release.Ok? && remote.download.Ok?)
  {
  }

  // ---------------------------------------------------------------------------
  // update

  /** The steps of `update` after the check; each can raise, which ends the process. */
  datatype Stage = Extract | Remove | WriteLog | Relaunch

  /**
   * One run of `update`: the check it made, every message passed to `_log`, the
   * log buffer at the end, the archive contents unpacked into the working tree,
   * whether main.zip was deleted, what update_log.txt was overwritten with,
   * whether main.py was relaunched, and whether `update` returned normally.
   */
  datatype UpdateRun = UpdateRun(
    check: CheckRun,
    messages: seq<string>,
    log: seq<string>,
    extracted: Option<Bytes>,
    archiveRemoved: bool,
    logFile: Option<string>,
    relaunched: bool,
    finished: bool)

  const FailurePrefix := "update failed. code: "
  const Unpacking := "unpacking main.zip..."
  const Unpacked := "unpacking complete!\ndeleting main.zip..."
  const Removed := "deleted!\nupdated successfully!"
  const Farewell := "log available in update_log.txt\nexit."

  function FailureLine(result: Option<Code>): string {
    FailurePrefix + ShowResult(result) + " (" + Describe(result) + ")"
  }

  predicate IsFailureLine(m: string) {
    StartsWith(m, FailurePrefix)
  }

  predicate Ready(check: CheckRun) {
    check.result == Returned(Some(DownloadReady))
  }

  /**
   * Whether `update` gets as far as starting `stage`, when `fault` is the first
   * of its steps that raises: extraction only on outcome 1, deletion only after
   * a successful extraction, the log write on every path that did not raise,
   * the relaunch only after the log write.
   */
  predicate Reaches(check: CheckRun, fault: Option<Stage>, stage: Stage) {
    match stage
    case Extract => Ready(check)
    case Remove => Ready(check) && fault != Some(Extract)
    case WriteLog => check.result.Returned? && (!Ready(check) || (fault != Some(Extract) && fault != Some(Remove)))
    case Relaunch =>
      check.result.Returned? && (!Ready(check) || (fault != Some(Extract) && fault != Some(Remove))) && fault != Some(WriteLog)
  }

  predicate Completes(check: CheckRun, fault: Option<Stage>, stage: Stage) {
    Reaches(check, fault, stage) && fault != Some(stage)
  }

  /** The messages `update` passes to `_log`, the check's own first. */
  function UpdateMessages(check: CheckRun, fault: Option<Stage>): seq<string> {
    if check.result.Crashed? then []
    else
      check.messages
      + (if !Ready(check) then [FailureLine(check.result.code)] else [Unpacking])
      + (if Completes(check, fault, Extract) then [Unpacked] else [])
      + (if Completes(check, fault, Remove) then [Removed] else [])
      + (if Reaches(check, fault, WriteLog) then [Farewell] else [])
  }

  /**
   * What `update` does once `check_and_download` has given `check`: `initial`
   * is the log buffer before the run, `fault` the first of update's own steps
   * that raises (None when none does).
   */
  function Sequence(check: CheckRun, fault: Option<Stage>, initial: seq<string>, clock: nat -> string): (r: UpdateRun)
    requires check.archive.Complete? <==> Ready(check)
    ensures r.check == check
    ensures r.extracted.Some? <==> Ready(check) && fault != Some(Extract)
    ensures r.extracted.Some? ==> check.archive == Complete(r.extracted.value)
    ensures r.archiveRemoved <==> Ready(check) && fault != Some(Extract) && fault != Some(Remove)
    ensures fault == None && check.result.Returned? ==> r.finished && r.relaunched && r.logFile == Some(Join(r.log, "\n"))
    ensures r.relaunched ==> r.logFile == Some(Join(r.log, "\n"))
    ensures check.result == Crashed ==> !r.relaunched && r.logFile == None
  {
    var messages := UpdateMessages(check, fault);
    var log := LogAll(initial, messages, clock);
    var flushed := Completes(check, fault, WriteLog);
    var launched := Completes(check, fault, Relaunch);
    UpdateRun(
      check, messages, log,
      if Completes(check, fault, Extract) then Some(check.archive.bytes) else None,
      Completes(check, fault, Remove),
      if flushed then Some(Join(log, "\n")) else None,
      launched,
      launched)
  }

  /**
   * The log of a run is the old buffer followed by one stamped entry per logged
   * message; the check's own messages come first, and a run that raised in the
   * check logs nothing.
   */
  lemma SequenceLogs(check: CheckRun, fault: Option<Stage>, initial: seq<string>, clock: nat -> string)
    requires check.archive.Complete? <==> Ready(check)
    ensures var r := Sequence(check, fault, initial, clock);
      && |r.log| == |initial| + |r.messages|
      && r.log[..|initial|] == initial
      && (forall k :: 0 <= k < |r.messages| ==> r.log[|initial| + k] == Entry(clock(|initial| + k), r.messages[k]))
      && (check.result.Returned? ==> |check.messages| < |r.messages| && r.messages[..|check.messages|] == check.messages)
      && (check.result == Crashed ==> r.messages == [] && r.log == initial)
  {
  }

  /**
   * After outcome 1 the unpacking, deletion and closing lines follow the check's
   * messages, cut short at the step that raises.
   */
  lemma ReadyCheckMessages(check: CheckRun, fault: Option<Stage>)
    requires Ready(check)
    ensures UpdateMessages(check, fault) == check.messages +
      (if fault == Some(Extract) then [Unpacking]
       else if fault == Some(Remove) then [Unpacking, Unpacked]
       else [Unpacking, Unpacked, Removed, Farewell])
  {
  }

  /** A check that did not give 1 is followed by the failure line and the closing line, nothing else. */
  lemma FailedCheckMessages(check: CheckRun, fault: Option<Stage>)
    requires check.result.Returned? && !Ready(check)
    ensures UpdateMessages(check, fault) == check.messages + [FailureLine(check.result.code), Farewell]
  {
    assert !Completes(check, fault, Extract) && !Completes(check, fault, Remove) && Reaches(check, fault, WriteLog);
  }

  /** `update`: the check, then the sequencing of its outcome. */
  function Update(settings: SettingsFile, remote: Remote, fault: Option<Stage>,
                  initial: seq<string>, clock: nat -> string): (r: UpdateRun)
    ensures r.check == CheckAndDownload(settings, remote)
    ensures r.log == LogAll(initial, r.messages, clock)
    ensures r.extracted.Some? <==> Ready(r.check) && fault != Some(Extract)
    ensures r.extracted.Some? ==> remote.download == Ok(r.extracted.value)
    ensures fault == None && settings != Unreadable ==> r.finished && r.relaunched && r.logFile == Some(Join(r.log, "\n"))
    ensures settings == Unreadable ==> !r.relaunched && r.logFile == None && r.log == initial
  {
    Sequence(CheckAndDownload(settings, remote), fault, initial, clock)
  }

  /** `check_and_download` never logs a line that reads like update's failure line. */
  lemma NoCheckMessageIsFailureLine(settings: SettingsFile, remote: Remote)
    ensures var check := CheckAndDownload(settings, remote);
      forall k :: 0 <= k < |check.messages| ==> |check.messages[k]| > 0 && check.messages[k][0] != 'u'
  {
  }

  /**
   * `update` logs exactly one failure line, right after the check's own messages,
   * when the outcome is not 1, and none when it is 1.
   */
  lemma UpdateLogsOneFailureLine(settings: SettingsFile, remote: Remote, fault: Option<Stage>)
    ensures var check := CheckAndDownload(settings, remote);
      var messages := UpdateMessages(check, fault);
      && (forall k :: 0 <= k < |messages| && IsFailureLine(messages[k]) ==> k == |check.messages| && !Ready(check))
      && (check.result.Returned? && !Ready(check) ==> messages[|check.messages|] == FailureLine(check.result.code))
  {
    NoCheckMessageIsFailureLine(settings, remote);
    OneFailureLineAfter(CheckAndDownload(settings, remote), fault);
  }

  lemma OneFailureLineAfter(check: CheckRun, fault: Option<Stage>)
    requires forall k :: 0 <= k < |check.messages| ==> |check.messages[k]| > 0 && check.messages[k][0] != 'u'
    ensures var messages := UpdateMessages(check, fault);
      && (forall k :: 0 <= k < |messages| && IsFailureLine(messages[k]) ==> k == |check.messages| && !Ready(check))
      && (check.result.Returned? && !Ready(check) ==> messages[|check.messages|] == FailureLine(check.result.code))
  {
    var messages := UpdateMessages(check, fault);
    var n := |check.messages|;
    assert !IsFailureLine(Unpacking) by { assert Unpacking[1] != FailurePrefix[1]; }
    assert !IsFailureLine(Unpacked) by { assert Unpacked[1] != FailurePrefix[1]; }
    assert !IsFailureLine(Removed) by { assert Removed[0] != FailurePrefix[0]; }
    assert !IsFailureLine(Farewell) by { assert Farewell[0] != FailurePrefix[0]; }
    if check.result.Returned? {
      var first := if Ready(check) then Unpacking else FailureLine(check.result.code);
      var rest := messages[n + 1..];
      assert messages == check.messages + [first] + rest;
      assert forall j :: 0 <= j < |rest| ==> !IsFailureLine(rest[j]);
      assert forall k :: 0 <= k < n ==> messages[k] == check.messages[k];
    }
  }

  /** A missing settings.json is reported as `None` with the fallback text, and the run still flushes and relaunches. */
  lemma MissingSettingsLogsUnknownError(remote: Remote, initial: seq<string>, clock: nat -> string)
    ensures var r := Update(NotFound, remote, None, initial, clock);
      && r.check.result == Returned(None)
      && r.messages == [SettingsMissing, "update failed. code: None (unknown error)", Farewell]
      && r.logFile.Some? && r.relaunched && r.extracted == None
  {
    var check := CheckAndDownload(NotFound, remote);
    assert check == CheckRun(Returned(None), [SettingsMissing], Untouched);
    FailedCheckMessages(check, None);
    assert FailureLine(None) == "update failed. code: None (unknown error)";
  }
}
