/**
 * `process_applicants` (auto_hpc_account.py:388-504): one pass over the
 * applicant CSV, a row at a time, that validates the row, creates the
 * account, mails the applicant and keeps six counters.
 *
 * A CSV row is what `csv.DictReader` yields: a map from column name to
 * value, where a short row has its missing columns filled with `None`.
 * Calling `.strip()` on such a filler raises; the exception leaves the
 * loop and the counters are returned as they stand.
 */
module Batch {
  import opened Wrappers
  import opened Text
  import opened UserType
  import opened Provisioning
  import opened Notifier

  /** A row of `csv.DictReader`; `None` is the filler of a column the line is too short for. */
  type Row = map<string, Option<string>>

  /** The settings read from the environment that the pass uses. */
  datatype Config = Config(scriptPath: string, sshPass: string, smtpUser: string)

  /**
   * One line of the file together with what the outside world does for it:
   * how the HPC host answers the LDAP query and the shell session, and whether the SMTP relay
   * takes the notification.
   */
  datatype Attempt = Attempt(row: Row, ldap: LdapQuery, shell: ShellRun, relayAccepts: bool)

  /** The `stats` dict. */
  datatype Stats = Stats(total: nat, created: nat, failed: nat, skipped: nat, emailsSent: nat, emailsFailed: nat)

  const NoStats := Stats(0, 0, 0, 0, 0, 0)

  /** The fields of a row once stripped and merged from the two column layouts. */
  datatype Fields = Fields(email: string, username: string, name: string, studentId: string,
                           userType: string, group: string, professor: string, customPassword: string)

  /** The value of `key` is a filler. */
  predicate Filler(row: Row, key: string)
  {
    key in row && row[key].None?
  }

  /**
   * `row.get(key, default).strip()` as the loop sees it when it does not
   * raise. The defaults used (`""` and `"User"`) have no surrounding
   * whitespace, so they are returned as they are (`DefaultsAreStripped`).
   */
  function Cell(row: Row, key: string, default: string): string
  {
    if key in row && row[key].Some? then Strip(row[key].value) else default
  }

  lemma DefaultsAreStripped()
    ensures Strip("") == ""
    ensures Strip("User") == "User"
  {
    assert LeadingSpaces("User") == 0;
    assert "User"[0..] == "User";
    assert TrailingSpaces("User") == 0;
    assert "User"[..4] == "User";
  }

  /** `row.get(key, default).strip()`; `None` when the value is a filler and `.strip()` raises. */
  function ReadField(row: Row, key: string, default: string): (r: Option<string>)
    ensures r.None? <==> Filler(row, key)
    ensures r.Some? ==> r.value == Cell(row, key, default)
  {
    if key !in row then Some(default)
    else match row[key]
      case None => None
      case Some(v) => Some(Strip(v))
  }

  /** `row.get(primary, "").strip() or row.get(fallback, "").strip()` when it does not raise. */
  function Either(row: Row, primary: string, fallback: string): string
  {
    if Cell(row, primary, "") != "" then Cell(row, primary, "") else Cell(row, fallback, "")
  }

  /** The `or` reads the fallback only when the primary column is blank. */
  predicate EitherAborts(row: Row, primary: string, fallback: string)
  {
    Filler(row, primary) || (Cell(row, primary, "") == "" && Filler(row, fallback))
  }

  function ReadEither(row: Row, primary: string, fallback: string): (r: Option<string>)
    ensures r.None? <==> EitherAborts(row, primary, fallback)
    ensures r.Some? ==> r.value == Either(row, primary, fallback)
  {
    var first :- ReadField(row, primary, "");
    if first != "" then Some(first) else ReadField(row, fallback, "")
  }

  /** The address and the user name, each from the new column or else the old one. */
  function ReadContact(row: Row): (r: Option<(string, string)>)
    ensures r.None? <==> EitherAborts(row, "email_ntu", "email") || EitherAborts(row, "student_id", "username")
    ensures r.Some? ==> r.value == (Either(row, "email_ntu", "email"), Either(row, "student_id", "username"))
  {
    var email :- ReadEither(row, "email_ntu", "email");
    var username :- ReadEither(row, "student_id", "username");
    Some((email, username))
  }

  /** The columns read after the contact ones are all read unconditionally. */
  predicate ProfileAborts(row: Row)
  {
    || Filler(row, "name") || Filler(row, "student_id") || Filler(row, "user_type")
    || Filler(row, "group") || Filler(row, "professor") || Filler(row, "password")
  }

  function ReadProfile(row: Row): (r: Option<(string, string, string, string, string, string)>)
    ensures r.None? <==> ProfileAborts(row)
    ensures r.Some? ==> r.value == (Cell(row, "name", "User"), Cell(row, "student_id", ""), Cell(row, "user_type", ""),
                                    Cell(row, "group", ""), Cell(row, "professor", ""), Cell(row, "password", ""))
  {
    var name :- ReadField(row, "name", "User");
    var studentId :- ReadField(row, "student_id", "");
    var userType :- ReadField(row, "user_type", "");
    var group :- ReadField(row, "group", "");
    var professor :- ReadField(row, "professor", "");
    var customPassword :- ReadField(row, "password", "");
    Some((name, studentId, userType, group, professor, customPassword))
  }

  /**
   * When reading a row raises: a filler in a column that is always read, or
   * in a fallback column that is read because its primary one is blank.
   */
  predicate ReadAborts(row: Row)
  {
    || EitherAborts(row, "email_ntu", "email") || EitherAborts(row, "student_id", "username")
    || ProfileAborts(row)
  }

  /** The reads of the loop body, in the order they happen. */
  function ReadFields(row: Row): (r: Option<Fields>)
    ensures r.None? <==> ReadAborts(row)
    ensures r.Some? ==> r.value == Fields(Either(row, "email_ntu", "email"), Either(row, "student_id", "username"),
                                          Cell(row, "name", "User"), Cell(row, "student_id", ""), Cell(row, "user_type", ""),
                                          Cell(row, "group", ""), Cell(row, "professor", ""), Cell(row, "password", ""))
  {
    var contact :- ReadContact(row);
    var profile :- ReadProfile(row);
    Some(Fields(contact.0, contact.1, profile.0, profile.1, profile.2, profile.3, profile.4, profile.5))
  }

  /** A row with every column filled. */
  predicate Complete(row: Row)
  {
    forall key :: key in row ==> row[key].Some?
  }

  /** A complete row is always read. */
  lemma CompleteRowIsRead(row: Row)
    requires Complete(row)
    ensures ReadFields(row).Some?
  {
  }

  /**
   * A filler in a fallback column does no harm when the primary column has
   * a value, since `or` does not read the fallback then.
   */
  lemma UnreadFallbackIsHarmless(row: Row)
    requires Cell(row, "email_ntu", "") != "" && Cell(row, "student_id", "") != ""
    requires forall key :: key in row && key != "email" && key != "username" ==> row[key].Some?
    ensures ReadFields(row).Some?
    ensures ReadFields(row).value.email == Cell(row, "email_ntu", "")
    ensures ReadFields(row).value.username == Cell(row, "student_id", "")
  {
  }

  /** A filler in the last column read aborts the row, though every field the loop checks is fine. */
  lemma FillerInPasswordAborts(row: Row)
    requires Filler(row, "password")
    ensures ReadFields(row).None?
  {
  }

  /** The group before validation: the explicit one, else the classified user type, else undergraduate. */
  function ResolveGroup(group: string, userType: string): (g: string)
    ensures group != "" ==> g == group
    ensures group == "" ==> IsGroup(g)
    ensures group == "" && userType == "" ==> g == "1"
  {
    if group == "" && userType != "" then ConvertUserTypeToGroup(userType)
    else if group == "" then "1"
    else group
  }

  /** An explicit group never goes through the classifier; without one, a non-empty user type does. */
  lemma ExplicitGroupWins(group: string, userType: string)
    ensures group != "" ==> ResolveGroup(group, userType) == group
    ensures group == "" && userType != "" ==> ResolveGroup(group, userType) == ConvertUserTypeToGroup(userType)
  {
  }

  /** The check `group not in ['1', '2', '3', '4', '5']`, which falls back to undergraduate. */
  function ValidGroup(group: string): (g: string)
    ensures IsGroup(g)
    ensures IsGroup(group) ==> g == group
    ensures !IsGroup(group) ==> g == "1"
  {
    if IsGroup(group) then group else "1"
  }

  /** The group the account is created with. */
  function GroupOf(f: Fields): string
  {
    ValidGroup(ResolveGroup(f.group, f.userType))
  }

  lemma GroupOfInRange(f: Fields)
    ensures IsGroup(GroupOf(f))
    ensures IsGroup(f.group) ==> GroupOf(f) == f.group
    ensures f.group != "" && !IsGroup(f.group) ==> GroupOf(f) == "1"
  {
    var g := ResolveGroup(f.group, f.userType);
    assert f.group != "" ==> g == f.group;
    assert GroupOf(f) == ValidGroup(g);
  }

  /** The two reasons to skip a row: no address or name, or a graduate student without an advisor. */
  predicate Rejected(f: Fields)
  {
    f.email == "" || f.username == "" || ((GroupOf(f) == "2" || GroupOf(f) == "3") && f.professor == "")
  }

  /** What happens to one row. */
  datatype RowOutcome = Skipped | Failed | Created(emailed: bool) | Crashed

  /** `create_account` as the loop calls it for a row. */
  function Provision(f: Fields, a: Attempt, config: Config): Option<string>
  {
    CreateAccount(a.ldap, a.shell, config.scriptPath, config.sshPass, f.username, GroupOf(f), f.professor, f.customPassword)
  }

  /**
   * What the loop body does with a row whose fields were read: skip it,
   * or (unless this is a dry run) create the account and send the mail.
   */
  function Decide(f: Fields, a: Attempt, dryRun: bool, config: Config): (o: RowOutcome)
    ensures !o.Crashed?
    ensures o.Skipped? <==> Rejected(f)
    ensures o == Failed <==> !Rejected(f) && !dryRun && Provision(f, a, config).None?
    ensures o.Created? <==> !Rejected(f) && (dryRun || Provision(f, a, config).Some?)
    ensures o == Created(false) ==> !dryRun && (!ValidAddress(f.email) || !ValidAddress(config.smtpUser) || !a.relayAccepts)
    ensures o == Created(true) && !dryRun ==> ValidAddress(f.email) && ValidAddress(config.smtpUser) && a.relayAccepts
  {
    if f.email == "" || f.username == "" then Skipped
    else
      var group := GroupOf(f);
      if (group == "2" || group == "3") && f.professor == "" then Skipped
      else if dryRun then Created(true)
      else
        match Provision(f, a, config)
        case None => Failed
        case Some(password) => Created(SendEmail(f.email, config.smtpUser, a.relayAccepts))
  }

  /**
   * A live row that is created mails the value `Provision` returned (line
   * 484); with a custom password that value is the empty string.
   */
  lemma CustomPasswordRowMailedEmpty(f: Fields, a: Attempt, config: Config)
    requires f.customPassword != ""
    ensures Provision(f, a, config).Some? ==> Provision(f, a, config).value == ""
  {
  }

  /** One iteration of the loop: a row whose reading raises crashes the pass. */
  function ProcessRow(a: Attempt, dryRun: bool, config: Config): RowOutcome
  {
    match ReadFields(a.row)
    case None => Crashed
    case Some(f) => Decide(f, a, dryRun, config)
  }

  /** A dry run neither queries the host nor runs its shell nor contacts the relay. */
  lemma DryRunContactsNothing(row: Row, ldap1: LdapQuery, shell1: ShellRun, relay1: bool,
                              ldap2: LdapQuery, shell2: ShellRun, relay2: bool, config: Config)
    ensures ProcessRow(Attempt(row, ldap1, shell1, relay1), true, config)
            == ProcessRow(Attempt(row, ldap2, shell2, relay2), true, config)
  {
  }

  predicate Aborted(outs: seq<RowOutcome>)
  {
    outs != [] && outs[|outs| - 1].Crashed?
  }

  /** The outcome each row would have, were the pass to reach it. */
  function Outcomes(rows: seq<Attempt>, dryRun: bool, config: Config): (outs: seq<RowOutcome>)
    ensures |outs| == |rows|
  {
    if rows == [] then []
    else Outcomes(rows[..|rows| - 1], dryRun, config) + [ProcessRow(rows[|rows| - 1], dryRun, config)]
  }

  lemma {:induction false} OutcomeAt(rows: seq<Attempt>, dryRun: bool, config: Config, k: nat)
    requires k < |rows|
    ensures Outcomes(rows, dryRun, config)[k] == ProcessRow(rows[k], dryRun, config)
  {
    if k < |rows| - 1 {
      OutcomeAt(rows[..|rows| - 1], dryRun, config, k);
    }
  }

  /** The outcomes up to and including the first crash, after which the loop is left. */
  function UpToCrash(outs: seq<RowOutcome>): (r: seq<RowOutcome>)
    ensures |r| <= |outs| && r == outs[..|r|]
    ensures forall k :: 0 <= k < |r| - 1 ==> !r[k].Crashed?
    ensures |r| < |outs| ==> Aborted(r)
  {
    if outs == [] then []
    else
      var prev := UpToCrash(outs[..|outs| - 1]);
      if Aborted(prev) then prev
      else
        assert prev == outs[..|outs| - 1];
        outs
  }

  /** The outcomes of the rows the pass gets to. */
  function Run(rows: seq<Attempt>, dryRun: bool, config: Config): seq<RowOutcome>
  {
    UpToCrash(Outcomes(rows, dryRun, config))
  }

  /** Adding one row's outcome to the counters. */
  function Count(s: Stats, o: RowOutcome): Stats
  {
    match o
    case Crashed => s.(total := s.total + 1)
    case Skipped => s.(total := s.total + 1, skipped := s.skipped + 1)
    case Failed => s.(total := s.total + 1, failed := s.failed + 1)
    case Created(true) => s.(total := s.total + 1, created := s.created + 1, emailsSent := s.emailsSent + 1)
    case Created(false) => s.(total := s.total + 1, created := s.created + 1, emailsFailed := s.emailsFailed + 1)
  }

  function Crashes(outs: seq<RowOutcome>): nat
  {
    if outs == [] then 0
    else Crashes(outs[..|outs| - 1]) + (if outs[|outs| - 1].Crashed? then 1 else 0)
  }

  /** The counters after a sequence of outcomes. */
  function Tally(outs: seq<RowOutcome>): (s: Stats)
    ensures s.total == |outs|
    ensures s.total == s.created + s.failed + s.skipped + Crashes(outs)
    ensures s.emailsSent + s.emailsFailed == s.created
  {
    if outs == [] then NoStats
    else Count(Tally(outs[..|outs| - 1]), outs[|outs| - 1])
  }

  /** While no row has crashed, the loop goes on to the next row. */
  lemma UpToCrashStep(outs: seq<RowOutcome>, i: nat)
    requires i < |outs|
    requires !Aborted(UpToCrash(outs[..i]))
    ensures UpToCrash(outs[..i + 1]) == UpToCrash(outs[..i]) + [outs[i]]
  {
    assert outs[..i + 1][..i] == outs[..i];
  }

  lemma TallyStep(outs: seq<RowOutcome>, o: RowOutcome)
    ensures Tally(outs + [o]) == Count(Tally(outs), o)
  {
    assert (outs + [o])[..|outs|] == outs;
  }

  /** Only the last outcome of a run can be a crash. */
  lemma {:induction false} CrashesOfRun(outs: seq<RowOutcome>)
    requires forall k :: 0 <= k < |outs| - 1 ==> !outs[k].Crashed?
    ensures Crashes(outs) == if Aborted(outs) then 1 else 0
  {
    if outs != [] {
      var init := outs[..|outs| - 1];
      assert forall k :: 0 <= k < |init| ==> !init[k].Crashed?;
      NoCrashes(init);
    }
  }

  lemma {:induction false} NoCrashes(outs: seq<RowOutcome>)
    requires forall k :: 0 <= k < |outs| ==> !outs[k].Crashed?
    ensures Crashes(outs) == 0
  {
    if outs != [] {
      NoCrashes(outs[..|outs| - 1]);
    }
  }

  /** A pass that crashed stops there: later rows change nothing. */
  lemma {:induction false} UpToCrashStops(outs: seq<RowOutcome>, i: nat)
    requires i <= |outs|
    requires Aborted(UpToCrash(outs[..i]))
    ensures UpToCrash(outs) == UpToCrash(outs[..i])
  {
    if i < |outs| {
      var init := outs[..|outs| - 1];
      assert init[..i] == outs[..i];
      UpToCrashStops(init, i);
    } else {
      assert outs[..i] == outs;
    }
  }

  /** The counters a pass returns balance: every counted row was created, failed, skipped or crashed. */
  lemma StatsBalance(rows: seq<Attempt>, dryRun: bool, config: Config)
    ensures var outs := Run(rows, dryRun, config);
            var s := Tally(outs);
            && s.total == s.created + s.failed + s.skipped + (if Aborted(outs) then 1 else 0)
            && s.emailsSent + s.emailsFailed == s.created
            && (s.total == |rows| || Aborted(outs))
  {
    CrashesOfRun(Run(rows, dryRun, config));
  }

  /** A dry run neither fails an account nor a notification. */
  lemma DryRunNeverFails(rows: seq<Attempt>, config: Config)
    ensures var s := Tally(Run(rows, true, config));
            s.failed == 0 && s.emailsFailed == 0 && s.created == s.emailsSent
  {
    var all := Outcomes(rows, true, config);
    var outs := UpToCrash(all);
    forall k | 0 <= k < |outs|
      ensures outs[k].Crashed? || outs[k].Skipped? || outs[k] == Created(true)
    {
      OutcomeAt(rows, true, config, k);
      assert outs[k] == all[k];
    }
    OnlyCleanOutcomes(outs);
  }

  lemma {:induction false} OnlyCleanOutcomes(outs: seq<RowOutcome>)
    requires forall k :: 0 <= k < |outs| ==> outs[k].Crashed? || outs[k].Skipped? || outs[k] == Created(true)
    ensures Tally(outs).failed == 0 && Tally(outs).emailsFailed == 0
  {
    if outs != [] {
      OnlyCleanOutcomes(outs[..|outs| - 1]);
    }
  }

  /** Two outcome sequences that crash at the same rows are cut at the same place. */
  lemma {:induction false} UpToCrashSameLength(xs: seq<RowOutcome>, ys: seq<RowOutcome>)
    requires |xs| == |ys|
    requires forall k :: 0 <= k < |xs| ==> (xs[k].Crashed? <==> ys[k].Crashed?)
    ensures |UpToCrash(xs)| == |UpToCrash(ys)|
  {
    if xs != [] {
      var n := |xs| - 1;
      UpToCrashSameLength(xs[..n], ys[..n]);
    }
  }

  /** A dry run stops at the same row and skips the same rows as a live one. */
  lemma DryRunSkipsSameRows(rows: seq<Attempt>, config: Config)
    ensures |Run(rows, true, config)| == |Run(rows, false, config)|
    ensures forall k :: 0 <= k < |Run(rows, true, config)| ==>
              (Run(rows, true, config)[k].Skipped? <==> Run(rows, false, config)[k].Skipped?)
              && (Run(rows, true, config)[k].Crashed? <==> Run(rows, false, config)[k].Crashed?)
  {
    var dry := Outcomes(rows, true, config);
    var live := Outcomes(rows, false, config);
    forall k | 0 <= k < |rows|
      ensures (dry[k].Skipped? <==> live[k].Skipped?) && (dry[k].Crashed? <==> live[k].Crashed?)
    {
      OutcomeAt(rows, true, config, k);
      OutcomeAt(rows, false, config, k);
    }
    UpToCrashSameLength(dry, live);
  }

  /**
   * A dry run counts what a live run would count had every account been
   * created and every notification delivered: where the live run neither
   * fails an account nor a mail, the two passes have the same outcomes.
   */
  lemma DryRunMatchesCleanLiveRun(rows: seq<Attempt>, config: Config)
    requires forall k :: 0 <= k < |rows| ==>
               ProcessRow(rows[k], false, config) != Failed && ProcessRow(rows[k], false, config) != Created(false)
    ensures Run(rows, true, config) == Run(rows, false, config)
  {
    var dry := Outcomes(rows, true, config);
    var live := Outcomes(rows, false, config);
    forall k | 0 <= k < |rows|
      ensures dry[k] == live[k]
    {
      OutcomeAt(rows, true, config, k);
      OutcomeAt(rows, false, config, k);
    }
    assert dry == live;
  }

  /**
   * The body of the loop for one row, up to the counter updates: which of
   * the four things happens to it.
   */
  method HandleRow(a: Attempt, dryRun: bool, config: Config) returns (o: RowOutcome)
    ensures o == ProcessRow(a, dryRun, config)
  {
    var fields := ReadFields(a.row);
    if fields.None? {
      return Crashed;
    }
    var f := fields.value;
    if f.email == "" || f.username == "" {
      return Skipped;
    }
    var group := GroupOf(f);
    if (group == "2" || group == "3") && f.professor == "" {
      return Skipped;
    }
    if dryRun {
      return Created(true);
    }
    var password := Provision(f, a, config);
    if password.None? {
      return Failed;
    }
    var sent := SendEmail(f.email, config.smtpUser, a.relayAccepts);
    return Created(sent);
  }

  /**
   * The pass. `csv` is `None` when the file does not exist; otherwise it
   * holds the rows in file order.
   */
  method ProcessApplicants(csv: Option<seq<Attempt>>, dryRun: bool, config: Config) returns (stats: Stats)
    ensures csv.None? ==> stats == NoStats
    ensures csv.Some? ==> stats == Tally(Run(csv.value, dryRun, config))
  {
    stats := NoStats;
    if csv.None? {
      return;
    }
    var rows := csv.value;
    ghost var outs := Outcomes(rows, dryRun, config);
    ghost var done: seq<RowOutcome> := [];
    var i := 0;
    var crashed := false;
    while i < |rows| && !crashed
      invariant i <= |rows| && done == outs[..i]
      invariant UpToCrash(done) == done
      invariant crashed <==> Aborted(done)
      invariant stats == Tally(done)
    {
      var o := HandleRow(rows[i], dryRun, config);
      OutcomeAt(rows, dryRun, config, i);
      UpToCrashStep(outs, i);
      TallyStep(done, o);
      stats := Count(stats, o);
      done := done + [o];
      i := i + 1;
      crashed := o.Crashed?;
    }
    if crashed {
      UpToCrashStops(outs, i);
    } else {
      assert outs[..i] == outs;
    }
  }
}
