/**
 * The AVG adapter object and the machine it runs on. The adapter checks that
 * the `avgscan` and `avgupdate` binaries are installed, asks them for the
 * version and for updates, and scans a sample by writing it to a temporary
 * file that it deletes again.
 *
 * Starting a program is an oracle `Runner`: the stdout the program prints,
 * given the files on the machine when it starts. The machine records every
 * program the adapter starts, in order.
 */
module AvgAdapter {
  import opened Wrappers
  import opened PyStr
  import opened AvgOutput

  const EnginePath := "/usr/bin/avgscan"
  const UpdatePath := "/usr/bin/avgupdate"

  /** The programs the adapter starts. */
  datatype Command =
    | VersionQuery            // avgscan --version
    | UpdateCheck             // sudo avgupdate -c
    | RunUpdate               // sudo avgupdate
    | ScanFile(path: string)  // avgscan <path>

  /** The regular files of the machine, by path. */
  type FileSystem = map<string, seq<bv8>>

  /** What a program prints on stdout, given the files present when it starts. */
  type Runner = (Command, FileSystem) -> string

  /** The machine: its files and the programs started on it so far. */
  class Machine {
    var files: FileSystem
    var started: seq<Command>

    constructor (files: FileSystem)
      ensures this.files == files && started == []
    {
      this.files := files;
      started := [];
    }
  }

  /**
   * `scan` wrapped with the engine name, as `do_scan` returns it: a result
   * always carries the name 'AVG', and a raised error passes through.
   */
  function Named(scan: Result<AvgTag, PyError>): (r: Result<(string, AvgTag), PyError>)
    ensures r.Success? ==> r.value.0 == EngineName
    ensures r.Failure? <==> scan.Failure?
    ensures scan.Failure? ==> r == Failure(scan.error)
    ensures scan.Success? ==> r == Success((EngineName, scan.value))
  {
    match scan
    case Success(tag) => Success((EngineName, tag))
    case Failure(e) => Failure(e)
  }

  /** The adapter for one sample, `data`. */
  class Avg {
    const data: seq<bv8>

    constructor (data: seq<bv8>)
      ensures this.data == data
    {
      this.data := data;
    }

    /** Both the scanner and the updater are files on the machine. */
    predicate IsInstalled(m: Machine)
      reads m
    {
      EnginePath in m.files && UpdatePath in m.files
    }

    /** The `version` property: one run of `avgscan --version`, then its first "version" line. */
    method Version(m: Machine, run: Runner) returns (r: Result<string, PyError>)
      modifies m`started
      ensures m.started == old(m.started) + [VersionQuery]
      ensures r == ParseVersion(run(VersionQuery, m.files))
    {
      var stdout := run(VersionQuery, m.files);
      m.started := m.started + [VersionQuery];
      var lines := OutputLines(stdout);
      var found := FindFirstMatch(lines, VersionMarker);
      match found
      case None =>
        r := Success(VersionFailed);
      case Some(i) =>
        var fields := Split(lines[i], ':');
        if |fields| < 2 {
          r := Failure(IndexError);
        } else {
          r := Success(Strip(fields[1]));
        }
    }

    /** `update_available`: one run of the update checker; true unless it says up-to-date. */
    method UpdateAvailable(m: Machine, run: Runner) returns (r: bool)
      modifies m`started
      ensures m.started == old(m.started) + [UpdateCheck]
      ensures r == ParseUpdateAvailable(run(UpdateCheck, m.files))
    {
      var stdout := run(UpdateCheck, m.files);
      m.started := m.started + [UpdateCheck];
      var found := FindFirstMatch(OutputLines(stdout), UpToDate);
      r := found.None?;
    }

    /**
     * `update_definitions`: runs the checker, and the updater only when an
     * update is available.
     */
    method UpdateDefinitions(m: Machine, run: Runner) returns (r: string)
      modifies m`started
      ensures var checkOut := run(UpdateCheck, m.files);
              var available := ParseUpdateAvailable(checkOut);
              && m.started == old(m.started) + [UpdateCheck] + (if available then [RunUpdate] else [])
              && r == ParseUpdateOutcome(checkOut, run(RunUpdate, m.files))
    {
      var available := UpdateAvailable(m, run);
      if available {
        var stdout := run(RunUpdate, m.files);
        m.started := m.started + [RunUpdate];
        var found := FindFirstMatch(OutputLines(stdout), UpdateSucceeded);
        if found.Some? {
          r := UpdateSucceeded;
        } else {
          r := UpdateFailed;
        }
      } else {
        r := UpToDate;
      }
    }

    /**
     * `do_scan`: when the engine is installed, writes the sample to the fresh
     * file `tempName`, scans that file, deletes it and reads the report; the
     * machine's files end as they were, even when reading the report fails.
     * Otherwise it starts nothing and reports that the engine is missing.
     */
    method DoScan(m: Machine, run: Runner, tempName: string, dateParses: string -> bool)
      returns (r: Result<(string, AvgTag), PyError>)
      requires tempName !in m.files
      modifies m
      ensures m.files == old(m.files)
      ensures old(IsInstalled(m)) ==>
                && m.started == old(m.started) + [ScanFile(tempName)]
                && r == Named(FormatOutput(run(ScanFile(tempName), old(m.files)[tempName := data]), dateParses))
      ensures !old(IsInstalled(m)) ==>
                && m.started == old(m.started)
                && r == Success((EngineName, EngineError(NotInstalledMessage)))
    {
      if IsInstalled(m) {
        m.files := m.files[tempName := data];
        var stdout := run(ScanFile(tempName), m.files);
        m.started := m.started + [ScanFile(tempName)];
        m.files := m.files - {tempName};
        assert m.files == old(m.files);
        var scan := FormatOutput(stdout, dateParses);
        r := Named(scan);
      } else {
        r := Success((EngineName, EngineError(NotInstalledMessage)));
      }
    }
  }
}
