/** The entry point: the mode named on the command line selects one routine,
    any exception the routine raises is re-raised once as
    `ParserDefinitionException` with a fixed prefix, and a routine's result
    is handed to the output only when it is not `None`. */
module Dispatch {
  import opened Wrappers
  import opened Exceptions
  import opened Utils
  import opened Tables
  import WhatsNew
  import LatestVersions
  import Download
  import Pep

  datatype Mode = WhatsNewMode | LatestVersionsMode | DownloadMode | PepMode

  /** `MODE_TO_FUNCTION`: the command-line name of each mode. */
  const ModeToFunction: map<string, Mode> := map[
    "whats-new" := WhatsNewMode,
    "latest-versions" := LatestVersionsMode,
    "download" := DownloadMode,
    "pep" := PepMode
  ]

  const FailurePrefix := "Ошибка в работе функции "

  /** How one run ends. */
  datatype Outcome =
    /** The argument parser refuses a mode outside the table's keys. */
    | UsageError(mode: string)
    /** `ParserDefinitionException` raised with this message. */
    | Failed(message: string)
    /** The routine returned: the results handed to the output (none when it
        returned `None`) and the archive written, if any. */
    | Finished(output: Option<Table>, saved: Option<Download.Archive>)

  /** `ParserDefinitionException(f'Ошибка в работе функции {error}')`. */
  function FailureMessage(e: Error): (m: string)
    ensures |m| >= |FailurePrefix| && m[..|FailurePrefix|] == FailurePrefix
    ensures m[|FailurePrefix|..] == Message(e)
  {
    FailurePrefix + Message(e)
  }

  /** What the routine for a mode returns, and what it writes. */
  function Routine(session: Session, mode: Mode): Result<(Option<Table>, Option<Download.Archive>), Error> {
    match mode
    case WhatsNewMode =>
      var t :- WhatsNew.WhatsNewOf(session); Ok((t, None))
    case LatestVersionsMode =>
      var t :- LatestVersions.LatestVersionsOf(session); Ok((t, None))
    case DownloadMode =>
      var a :- Download.DownloadOf(session); Ok((None, a))
    case PepMode =>
      var t :- Pep.PepOf(session); Ok((t, None))
  }

  function RunOf(session: Session, name: string): Outcome {
    if name !in ModeToFunction then UsageError(name)
    else match Routine(session, ModeToFunction[name])
      case Err(e) => Failed(FailureMessage(e))
      case Ok((output, saved)) => Finished(output, saved)
  }

  /** `main()` after the argument parser, from the session and the mode on. */
  method Run(session: Session, name: string) returns (o: Outcome)
    ensures o == RunOf(session, name)
  {
    if name !in ModeToFunction {
      return UsageError(name);
    }
    var results: Result<Option<Table>, Error>;
    var saved: Option<Download.Archive> := None;
    match ModeToFunction[name] {
      case WhatsNewMode =>
        results := WhatsNew.WhatsNew(session);
      case LatestVersionsMode =>
        results := LatestVersions.LatestVersions(session);
      case DownloadMode =>
        var written := Download.Download(session);
        if written.Err? {
          results := Err(written.error);
        } else {
          saved := written.value;
          results := Ok(None);
        }
      case PepMode =>
        var mismatches;
        results, mismatches := Pep.Pep(session);
    }
    if results.Err? {
      return Failed(FailureMessage(results.error));
    }
    o := Finished(results.value, saved);
  }

  /** The four modes are exactly the table's keys, each name selecting its
      own routine. */
  lemma ModeNames()
    ensures ModeToFunction.Keys == {"whats-new", "latest-versions", "download", "pep"}
    ensures forall a, b :: a in ModeToFunction && b in ModeToFunction && a != b ==>
      ModeToFunction[a] != ModeToFunction[b]
  {
  }

  /** A run fails exactly when its routine raises, with the routine's
      message behind the fixed prefix, wrapped once; otherwise the routine's
      result reaches the output unchanged, and nothing reaches it when the
      routine returned `None`. */
  lemma RunMeaning(session: Session, name: string)
    requires name in ModeToFunction
    ensures var r := Routine(session, ModeToFunction[name]);
      && (RunOf(session, name).Failed? <==> r.Err?)
      && (r.Err? ==> RunOf(session, name).message == FailurePrefix + Message(r.error))
      && (r.Ok? ==> RunOf(session, name) == Finished(r.value.0, r.value.1))
  {
  }

  /** Only `download` writes an archive, and it never hands a table to the
      output. */
  lemma OnlyDownloadSaves(session: Session, name: string)
    requires RunOf(session, name).Finished?
    ensures RunOf(session, name).saved.Some? ==> name == "download"
    ensures name == "download" ==> RunOf(session, name).output.None?
  {
  }
}
