# HPC account provisioning, modelled in Dafny

`auto_hpc_account.py` reads a CSV file of applicants and handles one row at a
time. For each row it validates the fields and works out the user's group,
then creates the account on the HPC host over SSH. It runs the interactive
`add_user.sh` there and reads the outcome (and a generated password) from
the script's output. Finally it mails the applicant their credentials and
updates six counters.

This project models the decision logic of that pass:

- `user_type.dfy` (module `UserType`): `convert_user_type_to_group`, the
  classifier that turns a free-text user type (in Chinese or English) into
  one of the five group codes. It models the exact dictionary lookup, then
  the case-insensitive scan in dictionary order, then the default "1".
- `provisioning.dfy` (module `Provisioning`): `create_account`. This covers:
  - the lines it types into the remote shell;
  - the duplicate check on the LDAP query output, which is a substring test;
  - the success and error keywords;
  - the extraction `re.search(r'Generated password:\s*(\S+)', output,
    re.IGNORECASE)`, as a leftmost-match search with a greedy capture;
  - the value it returns: the password, `""`, or `None`.

  The SSH session is given as two parameters, in the order the code uses
  them. `ldap` answers the LDAP query for the user name with its output,
  or raises. `shell` answers the lines typed into the interactive shell
  with the script's transcript, or raises. The shell is used only when the
  query does not find the name.
- `notifier.dfy` (module `Notifier`): the address checks of `send_email`.
  Whether the SMTP relay accepts the message is an input.
- `batch.dfy` (module `Batch`): `process_applicants`.
  - **Reading a row.** Each field is read with `.get(...).strip()`, and
    `email`/`username` go through the `or` fallbacks. A short CSV row yields
    `None` values, and `.strip()` raises on them.
  - **Group.** The group is resolved, then validated.
  - **Skips.** A row is skipped when email or username is missing, or when
    a master or PhD row has no professor.
  - **Dry run.** It counts the account and the email as successes and does
    nothing else.
  - **Counters.** `HandleRow` decides the fate of a row, and
    `ProcessApplicants` is the loop with its counters. It stops when a row
    raises, because the `try` encloses the whole loop.
- `text.dfy` (module `Text`): the parts of Python's `str` that the code
  relies on. These are `strip()` over the exact `isspace()` set, `lower()`
  (for ASCII letters) and `w in s`.
- `wrappers.dfy` (module `Wrappers`): `Option`, standing in for Python's
  `None`-or-value returns.

Every loop step is specified by the function `ProcessRow`, which works on
one row, and the whole pass by `Run` and `Tally`. The properties of the
counters are lemmas about those functions.

Three places where a plain description of the program would differ from the
code. In all three, the model follows the code:

- **Invalid explicit group.** An explicit `group` that is present but not
  one of the five codes is not sent to the classifier: it becomes "1"
  (lines 433-436 and 448-450). See `Batch.GroupOfInRange`.
- **Short rows.** A single bad row can end the whole pass. `csv.DictReader`
  fills the trailing columns that a short row lacks with `None`, and
  `.strip()` on such a value raises. This happens only when the loop reads
  one of those columns: any of `email_ntu`, `student_id`, `name`,
  `user_type`, `group`, `professor` or `password`, or the fallback `email`/`username` when its
  primary column is blank (`Batch.ReadAborts`). A short row that lacks only
  columns the loop does not read is processed normally. When reading does
  raise, the enclosing `except` (line 501) ends the pass with the counters
  as they stand, and `total` already counts that row. See
  `Batch.StatsBalance` and `Batch.FillerInPasswordAborts`.
- **Custom passwords.** The docstring of `create_account` (lines 82 and 85)
  says a custom password is used and returned. The code never types it:
  the password prompt always gets a blank line (lines 139-145). With a
  custom password, a created account returns `""` (line 192), and that is
  the password the applicant is mailed. See
  `Provisioning.CustomPasswordNeverSent`,
  `Provisioning.CustomPasswordIgnored` and
  `Batch.CustomPasswordRowMailedEmpty`.

## Model

| member | source | states |
|---|---|---|
| Text.Strip | auto_hpc_account.py:350 | `strip()` never lengthens a string, and the result begins and ends with a non-whitespace character (or is empty) |
| Text.StripRemovesOnlySpaces | auto_hpc_account.py:350 | what `strip()` returns is a contiguous piece of the input with only whitespace on either side |
| Text.StripEmptyIffAllSpace | auto_hpc_account.py:423-439 | a stripped cell is blank exactly when the cell is all whitespace, so `or` and `not x` treat padded blanks as missing |
| Text.StripIdempotent | auto_hpc_account.py:350 | stripping twice is the same as stripping once |
| Text.StripLowerCommute | auto_hpc_account.py:350-377 | lower-casing before or after stripping gives the same string |
| Text.LowerOnlyFixesItself | auto_hpc_account.py:377-379 | a key with no lower-case ASCII letter is the lower-casing of itself only |
| UserType.ExactLookup | auto_hpc_account.py:373-374 | the dict lookup fails exactly when no key equals the label; a hit returns the value of the first key equal to it |
| UserType.FoldedLookup | auto_hpc_account.py:376-380 | the scan in dict order returns the value of the first key whose lower-casing equals the lowered label, and fails exactly when there is none |
| UserType.ConvertUserTypeToGroup | auto_hpc_account.py:340-384 | the classifier is total and always returns one of "1".."5" |
| UserType.MappingValuesAreGroups | auto_hpc_account.py:353-370 | every value of `type_mapping` is a group code |
| UserType.MappingKeysAreLowerCase | auto_hpc_account.py:353-370 | every key of `type_mapping` is already lower-case |
| UserType.ExactHitIsFirstFoldedHit | auto_hpc_account.py:372-380 | with lower-case keys, an exact hit is also the first hit of the case-insensitive scan |
| UserType.ConvertDependsOnLoweredLabel | auto_hpc_account.py:350-384 | the group depends only on the stripped, lower-cased label: the exact lookup never changes the result of the scan |
| UserType.ConvertKnownLabel | auto_hpc_account.py:376-380 | a label whose trimmed, lower-cased form first equals the i-th key gets the i-th value |
| UserType.ConvertUnknownLabel | auto_hpc_account.py:382-384 | a label that matches no key, even ignoring case and padding, defaults to "1" |
| UserType.ConvertIgnoresPaddingAndCase | auto_hpc_account.py:350-380 | padding and ASCII case never change the group |
| UserType.ChineseKeysMatchOnlyExactly | auto_hpc_account.py:353-380 | a key without Latin letters (the Chinese ones) is reached only by its exact text, up to padding |
| UserType.StripsPaddedMaster | auto_hpc_account.py:350 | " Master " strips to "Master" |
| UserType.ConvertPaddedMaster | auto_hpc_account.py:350-380 | " Master " is classified as master ("2") |
| UserType.ConvertMixedCasePhd | auto_hpc_account.py:376-380 | "PhD" is classified as PhD ("3") |
| UserType.ConvertChineseUndergraduate | auto_hpc_account.py:373-374 | "大學部學生" is classified as undergraduate ("1") |
| UserType.ConvertUnknownPostdoc | auto_hpc_account.py:382-384 | "Postdoc" falls back to undergraduate ("1") |
| Notifier.SendEmail | auto_hpc_account.py:227-237 | no mail goes out when the recipient or the sending account is empty or lacks '@'; otherwise the result is whether the relay accepted the message |
| Notifier.ValidAddressIffAtSign | auto_hpc_account.py:231-237 | an address passes the check exactly when it contains '@' |
| Provisioning.ShellInput | auto_hpc_account.py:127-145 | exactly six lines are typed: the sudo command, the sudo password, the username, the group, the professor, then a blank line for the password prompt |
| Provisioning.AnyOccurs | auto_hpc_account.py:172-176 | `any(k in text for k in keywords)` holds exactly when some keyword is a substring of the text |
| Provisioning.SearchFrom | auto_hpc_account.py:184-186 | when the search finds nothing, the pattern matches nowhere; when it finds a token, the pattern captures that token at some position and matches at no earlier one |
| Provisioning.CaptureIsTokenAfter | auto_hpc_account.py:184 | the pattern captures a token at a position exactly when the marker is there, and the token is the first non-whitespace run after it |
| Provisioning.NoMarkerNoCapture | auto_hpc_account.py:182-184 | without "generated password:" in the lower-cased output, the pattern cannot match |
| Provisioning.CreateAccountOutcome | auto_hpc_account.py:87-198 | an account is reported exactly when the name is not found in the LDAP output, some success keyword occurs and no error keyword does. With a custom password the value is "". Otherwise it is "" exactly when the pattern matches nowhere, else it is the leftmost capture |
| Provisioning.CreateAccount | auto_hpc_account.py:74-210 | a query that raises gives `None`. A password is returned exactly when the query ran, the name is new, the shell session ran and the script succeeded. With a custom password the value is "". Otherwise it is the leftmost capture of the search, or "" when there is none |
| Provisioning.DuplicateTypesNothing | auto_hpc_account.py:112-130 | when the query finds the name or raises, `create_account` returns `None` before the shell is opened: the result is the same whatever the shell would do |
| Provisioning.CustomPasswordNeverSent | auto_hpc_account.py:123-145 | the typed lines do not depend on the custom password, which is never typed |
| Provisioning.DuplicateVetoes | auto_hpc_account.py:117-120 | an LDAP output containing `cn: <username>` gives `None`, whatever the script would print |
| Provisioning.PrefixNameCountsAsDuplicate | auto_hpc_account.py:117 | an existing entry whose name only starts with `username` also counts as a duplicate |
| Provisioning.ErrorKeywordVetoes | auto_hpc_account.py:175-198 | an error keyword anywhere in the output, in any case, gives `None` even when a success keyword is present |
| Provisioning.SucceededIndependentOfUsername | auto_hpc_account.py:163-172 | the keyword naming the user is redundant: the success verdict is the same for every user name |
| Provisioning.UserKeywordImpliesSuccessfully | auto_hpc_account.py:165-166 | an output containing the user-specific keyword contains "successfully" |
| Provisioning.CustomPasswordIgnored | auto_hpc_account.py:182-192 | a custom password leaves the verdict unchanged and makes the returned value "" |
| Provisioning.MarkerGateRedundant | auto_hpc_account.py:182-192 | the `"generated password:" in output_lower` test changes nothing: a created account gets the capture of the search, or "" when there is none |
| Provisioning.SearchSkipsToMarker | auto_hpc_account.py:184 | the search passes positions without the marker and returns the token after the first marker |
| Provisioning.ExtractsAnnouncedPassword | auto_hpc_account.py:184-186 | in output whose first marker is `Generated password: <token>`, with the token followed by whitespace or the end, the search captures the token |
| Provisioning.AnnouncedPasswordIsReturned | auto_hpc_account.py:178-189 | in a successful run without a custom password, `create_account` returns the announced password |
| Provisioning.SampleLineYieldsPassword | test_verification.py:10-42 | the sample's line "Generated password: YUQ54LyaHtnS", after any text without the marker and before a newline, yields exactly "YUQ54LyaHtnS" |
| Batch.DefaultsAreStripped | auto_hpc_account.py:423-439 | the `.get` defaults "" and "User" are unchanged by `strip()` |
| Batch.ReadField | auto_hpc_account.py:423-439 | `row.get(key, default).strip()` raises exactly on a `None` filler; otherwise it is the stripped value or the default |
| Batch.ReadEither | auto_hpc_account.py:423-424 | the `or` fallback raises on a filler in the primary column, and on one in the fallback column only when the primary is blank; otherwise it is the primary column, else the fallback |
| Batch.ReadContact | auto_hpc_account.py:423-424 | the email is `email_ntu`, else `email`; the username is `student_id`, else `username` |
| Batch.ReadProfile | auto_hpc_account.py:425-439 | the other six columns are read unconditionally; a filler in any of them raises |
| Batch.ReadFields | auto_hpc_account.py:423-439 | reading a row raises exactly when `ReadAborts` holds; otherwise the fields are the stripped cells with their fallbacks and defaults |
| Batch.CompleteRowIsRead | auto_hpc_account.py:423-439 | a row without fillers never raises |
| Batch.UnreadFallbackIsHarmless | auto_hpc_account.py:423-424 | a filler in `email` or `username` does no harm when the primary column has a value |
| Batch.FillerInPasswordAborts | auto_hpc_account.py:439 | a filler in the last column read raises, even when every field that is checked is fine |
| Batch.ResolveGroup | auto_hpc_account.py:430-436 | a non-empty explicit group is kept as is; without one, the group is a code from the classifier, or "1" when the user type is blank too |
| Batch.ExplicitGroupWins | auto_hpc_account.py:433-436 | the classifier is consulted only when the group column is blank and the user type is not |
| Batch.ValidGroup | auto_hpc_account.py:448-450 | the result is a group code: the group itself when it is valid, otherwise "1" |
| Batch.GroupOfInRange | auto_hpc_account.py:430-450 | the group used is always a code; a valid explicit group is used unchanged; an invalid explicit group becomes "1", not a classified one |
| Batch.Decide | auto_hpc_account.py:441-488 | a row is skipped exactly when email or username is blank, or it is group 2 or 3 without a professor. Otherwise a dry run counts it created and mailed. A live run fails it exactly when `create_account` returns `None`, and otherwise creates it. The mail fails when an address is bad or the relay refuses it |
| Batch.Outcomes | auto_hpc_account.py:418-488 | there is one outcome per row |
| Batch.OutcomeAt | auto_hpc_account.py:418-488 | the k-th outcome is what the loop body does with the k-th row |
| Batch.UpToCrash | auto_hpc_account.py:414-502 | the outcomes the pass reaches are a prefix of all outcomes; only the last of them can be a crash, and the pass stops early only after one |
| Batch.Tally | auto_hpc_account.py:399-488 | `total` counts the rows reached. `total` = created + failed + skipped + crashes, and emails sent + emails failed = created |
| Batch.UpToCrashStep | auto_hpc_account.py:418 | until a row raises, the loop goes on to the next row |
| Batch.UpToCrashStops | auto_hpc_account.py:501-502 | once a row raises, later rows change nothing |
| Batch.CrashesOfRun | auto_hpc_account.py:414-502 | a pass holds at most one crash, as its last outcome |
| Batch.StatsBalance | auto_hpc_account.py:399-502 | the counters returned balance: total = created + failed + skipped (+1 if the pass crashed), emails sent + failed = created, and total is the number of rows unless the pass crashed |
| Batch.DryRunNeverFails | auto_hpc_account.py:466-471 | a dry run has no failed account and no failed email, and every created account counts as mailed |
| Batch.OnlyCleanOutcomes | auto_hpc_account.py:466-471 | outcomes without failures tally no failed accounts and no failed emails |
| Batch.UpToCrashSameLength | auto_hpc_account.py:418-502 | two passes whose rows raise at the same positions stop at the same row |
| Batch.DryRunContactsNothing | auto_hpc_account.py:466-471 | a dry-run row's outcome is the same whatever the LDAP query, the shell and the relay would do |
| Batch.CustomPasswordRowMailedEmpty | auto_hpc_account.py:474-484 | for a row with a custom password, a created account hands "" to `send_email` as the password |
| Batch.DryRunSkipsSameRows | auto_hpc_account.py:441-471 | a dry run reaches the same rows as a live run, and skips and crashes on the same ones |
| Batch.DryRunMatchesCleanLiveRun | auto_hpc_account.py:466-488 | when no account or email would fail in a live run, the dry run has exactly the live run's outcomes |
| Batch.HandleRow | auto_hpc_account.py:419-488 | the loop body's branches give the outcome `ProcessRow` specifies for the row |
| Batch.ProcessApplicants | auto_hpc_account.py:388-504 | a missing file gives all-zero counters; otherwise the counters returned are the tally of the outcomes of the rows reached before, and including, the first row that raises |

## Left out

- SSH and SMTP I/O are not modelled. This covers the connection, key or
  password authentication, the fixed `sleep`s, the bounded polling of the
  channel, MIME composition and the attachments. The host's answers are
  parameters of each row: the query output (`Attempt.ldap`) and the shell
  transcript (`Attempt.shell`). Whether the relay takes the mail is one
  too (`Attempt.relayAccepts`). Any exception in those parts is caught by
  the source and becomes `None` or `False`. The model represents it the
  same way: a `None` answer, or a relay that refuses.
- `send_email`'s message body (lines 239-323) is not modelled. The
  password it embeds is stated only through
  `Batch.CustomPasswordRowMailedEmpty`; `Notifier.SendEmail` takes the
  address checks and the relay's verdict.
- The `ldapsearch` command line and the SSH connection parameters (lines
  90-115) are left out. Only the output of the query is modelled.
- `script_input` (line 123) is built but never used, so it is not modelled.
  The lines actually typed are `ShellInput`.
- `generate_password`, logging, the environment loading, argument parsing
  and `main`, including its check for missing configuration, are not part
  of this model.
- Reading the file is modelled from the rows on. The file's existence is
  an `Option`, and each row is a map of the kind `csv.DictReader` yields.
  What is not modelled:
  - decoding errors, and an `open` that fails on an existing file (both
    would also land in the `except` at line 501);
  - the extra values of a long row, which `DictReader` keys by `None`.
    The loop never reads them.
- `Text.Lower`: folds ASCII letters only. Python's `lower()` also folds
  the non-ASCII cased characters, and some of them fold onto ASCII letters:
  U+212A KELVIN SIGN becomes `k`, for example. `re.IGNORECASE` also matches
  some non-ASCII characters against ASCII letters of the pattern, such as
  U+017F `ſ` against `s`, while `lower()` leaves `ſ` as it is. On output
  that holds such characters, the real keyword tests and the real search can
  differ from the model's.
- `Provisioning.MarkerGateRedundant`: holds under ASCII folding. In the
  program, output such as "generated paſſword: x" is matched by the search
  but not by the `"generated password:" in output_lower` test at line 182,
  so there the test is not quite redundant.
- `Provisioning.SampleLineYieldsPassword`: the lemma does not evaluate the
  whole sample transcript literally. It covers the password line with any
  text before it that lacks the marker, and anything after it that starts
  with a newline. The sample has that form, but the following are not
  proved for it:
  - that its first five lines hold no marker;
  - that it passes the success test and no error keyword occurs in it,
    which is what test_verification.py:44-86 checks;
  - the end-to-end value `Some("YUQ54LyaHtnS")` of `CreateAccountOutcome`
    on it.

  `Provisioning.AnnouncedPasswordIsReturned` gives that end-to-end value for
  any transcript of this form that passes the success test.
- `Batch.HandleRow`: returns the row's outcome, and the counter updates
  for all branches are applied in one place (`Count`). In the source,
  each branch increments its own counters.
