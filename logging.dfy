/** The console logger's threshold, as the `-q` and `-v` counts select it. */
module Logging {

  /** The levels of Python's logging module that the tool uses. */
  datatype Level = Debug | Info | Warning | Error | Critical

  /** The numeric value Python's logging gives each level; a message is shown
      when its level is at least the logger's. */
  function Severity(l: Level): nat {
    match l
    case Debug => 10
    case Info => 20
    case Warning => 30
    case Error => 40
    case Critical => 50
  }

  /** The threshold for the given verbose and quiet counts, written as a
      table rather than as the series of overrides the logger applies. */
  function SelectLevel(verbose: nat, quiet: nat): Level {
    if verbose >= 2 then Debug
    else if verbose == 1 then Info
    else if quiet >= 2 then Critical
    else if quiet == 1 then Error
    else Warning
  }

  class Logger {
    var level: Level

    /** A new console logger starts at WARNING. */
    constructor ()
      ensures level == Warning
    {
      level := Warning;
    }

    /** Reset to WARNING, then let a quiet count raise the threshold and a
        verbose count lower it, each override replacing the one before. */
    method SetVerbose(verbose: nat, quiet: nat)
      modifies this
      ensures level == SelectLevel(verbose, quiet)
    {
      level := Warning;
      if quiet != 0 {
        level := Error;
        if quiet > 1 {
          level := Critical;
        }
      }
      if verbose != 0 {
        level := Info;
        if verbose > 1 {
          level := Debug;
        }
      }
    }
  }

  /** A non-zero verbose count decides the level whatever the quiet count. */
  lemma VerboseOverridesQuiet(verbose: nat, quiet: nat)
    requires verbose > 0
    ensures SelectLevel(verbose, quiet) == SelectLevel(verbose, 0)
    ensures Severity(SelectLevel(verbose, quiet)) < Severity(Warning)
  {
  }

  /** More `-v` never raises the threshold; more `-q` (without `-v`) never lowers it. */
  lemma SelectLevelMonotone(v1: nat, v2: nat, q1: nat, q2: nat)
    ensures v1 <= v2 ==> Severity(SelectLevel(v2, q1)) <= Severity(SelectLevel(v1, q1))
    ensures q1 <= q2 ==> Severity(SelectLevel(0, q1)) <= Severity(SelectLevel(0, q2))
  {
  }

  /** The defaults keep WARNING; the levels below and above it are reached only
      through a verbose or a quiet count. */
  lemma SelectLevelCases(verbose: nat, quiet: nat)
    ensures SelectLevel(verbose, quiet) == Warning <==> verbose == 0 && quiet == 0
    ensures Severity(SelectLevel(verbose, quiet)) < Severity(Warning) <==> verbose > 0
    ensures Severity(SelectLevel(verbose, quiet)) > Severity(Warning) <==> verbose == 0 && quiet > 0
    ensures SelectLevel(verbose, quiet) == Critical <==> verbose == 0 && quiet >= 2
    ensures SelectLevel(verbose, quiet) == Debug <==> verbose >= 2
  {
  }
}
