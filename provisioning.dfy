/**
 * The decision part of `create_account` (auto_hpc_account.py:74-210).
 *
 * The SSH session itself is not modelled; what it produces is. A session
 * yields two texts: the output of the LDAP query for the user name, and
 * the transcript of the interactive `add_user.sh` run. From these two
 * texts, the user name and the custom password of the row, the function
 * returns what `create_account` returns: `None` for a duplicate, a failed
 * run or a session that raised, and otherwise the password to mail.
 */
module Provisioning {
  import opened Wrappers
  import opened Text

  /**
   * The two things the SSH session is asked for, in the order they are
   * asked. `LdapQuery` answers the `ldapsearch` for a user name with its
   * output, or `None` when connecting or running the query raises.
   * `ShellRun` answers the lines typed into the interactive shell with
   * everything read back from the channel, or `None` when the shell
   * session raises.
   */
  type LdapQuery = string -> Option<string>
  type ShellRun = seq<string> -> Option<string>

  /** The duplicate test `f"cn: {username}" in output` on the LDAP query output. */
  predicate AlreadyExists(ldapOutput: string, username: string)
  {
    Contains(ldapOutput, "cn: " + username)
  }

  /**
   * The lines typed into the interactive shell, in order (each is sent with
   * a trailing newline): the sudo command, the sudo password, then the
   * answers to the script's four prompts. The password prompt always gets
   * a blank line.
   */
  function ShellInput(scriptPath: string, sudoPassword: string, username: string, group: string,
                      professor: string, customPassword: string): (lines: seq<string>)
    ensures |lines| == 6 && lines[0] == "sudo " + scriptPath && lines[1] == sudoPassword
    ensures lines[2] == username && lines[3] == group && lines[4] == professor
    ensures lines[5] == ""
  {
    ["sudo " + scriptPath, sudoPassword, username, group, professor, ""]
  }

  function SuccessKeywords(username: string): seq<string>
  {
    ["done ! please check", "successfully", "user " + username + " added to ldap successfully",
     "storage directory", "adding user(s)"]
  }

  const ErrorKeywords: seq<string> := ["error", "failed", "invalid group", "username and group are required"]

  /** Python's `any(keyword in text for keyword in keywords)`. */
  function AnyOccurs(text: string, keywords: seq<string>): (found: bool)
    ensures found <==> exists k :: 0 <= k < |keywords| && Contains(text, keywords[k])
  {
    if keywords == [] then false
    else
      var rest := AnyOccurs(text, keywords[1..]);
      assert forall k :: 1 <= k < |keywords| ==> keywords[k] == keywords[1..][k - 1];
      Contains(text, keywords[0]) || rest
  }

  /** `success and not has_errors`, both tested on the lower-cased transcript. */
  predicate ScriptSucceeded(transcript: string, username: string)
  {
    var lowered := Lower(transcript);
    AnyOccurs(lowered, SuccessKeywords(username)) && !AnyOccurs(lowered, ErrorKeywords)
  }

  /** The literal part of the pattern `Generated password:\s*(\S+)`, as matched under IGNORECASE. */
  const Marker := "generated password:"

  /**
   * From index `k` on, `s` holds a run of whitespace, then `token` starting
   * at `q`, and `token` ends where the non-whitespace run ends.
   */
  ghost predicate SpacesThenToken(s: string, k: nat, q: nat, token: string)
  {
    k <= q <= |s| - |token| && AllSpace(s[k..q]) && s[q..q + |token|] == token
    && (q + |token| == |s| || IsSpace(s[q + |token|]))
  }

  /** `SpacesThenToken` right after a marker that starts at `p`. */
  ghost predicate MarkerThenToken(s: string, p: nat, q: nat, token: string)
  {
    SpacesThenToken(s, p + |Marker|, q, token)
  }

  /**
   * The pattern, searched case-insensitively, matches at `p` and its group
   * captures `token`: the marker, then a run of whitespace, then `token`,
   * a maximal run of non-whitespace.
   */
  ghost predicate CapturesAt(s: string, p: nat, token: string)
  {
    OccursAt(Lower(s), Marker, p) && token != [] && NoSpace(token)
    && exists q :: MarkerThenToken(s, p, q, token)
  }

  /** `token` is what the leftmost match of the pattern in `s` captures. */
  ghost predicate FirstCapture(s: string, token: string)
  {
    exists p: nat :: CapturesAt(s, p, token) && forall p': nat, t :: p' < p ==> !CapturesAt(s, p', t)
  }

  /** The first run of non-whitespace that follows index `k` and any whitespace. */
  function TokenAfter(s: string, k: nat): string
    requires k <= |s|
  {
    var q := k + LeadingSpaces(s[k..]);
    s[q..q + LeadingNonSpaces(s[q..])]
  }

  /** The whitespace run and the token after it are determined by where they start. */
  lemma SpacesThenTokenIsTokenAfter(s: string, k: nat, q: nat, token: string)
    requires token != [] && NoSpace(token) && SpacesThenToken(s, k, q, token)
    ensures token == TokenAfter(s, k)
  {
    assert s[k..][..q - k] == s[k..q];
    assert s[q] == token[0];
    LeadingSpacesUnique(s[k..], q - k);
    assert s[q..][..|token|] == token;
    LeadingNonSpacesUnique(s[q..], |token|);
  }

  lemma TokenAfterIsSpacesThenToken(s: string, k: nat)
    requires k <= |s|
    ensures var q := k + LeadingSpaces(s[k..]);
            NoSpace(TokenAfter(s, k)) && SpacesThenToken(s, k, q, TokenAfter(s, k))
  {
    var lead := LeadingSpaces(s[k..]);
    var q := k + lead;
    var run := LeadingNonSpaces(s[q..]);
    assert s[k..][..lead] == s[k..q];
    assert s[q..][..run] == s[q..q + run];
  }

  lemma CaptureIsTokenAfter(s: string, p: nat, token: string)
    requires p + |Marker| <= |s|
    ensures CapturesAt(s, p, token) <==>
              OccursAt(Lower(s), Marker, p) && token != [] && token == TokenAfter(s, p + |Marker|)
  {
    var k := p + |Marker|;
    TokenAfterIsSpacesThenToken(s, k);
    assert MarkerThenToken(s, p, k + LeadingSpaces(s[k..]), TokenAfter(s, k));
    if CapturesAt(s, p, token) {
      var q :| MarkerThenToken(s, p, q, token);
      SpacesThenTokenIsTokenAfter(s, k, q, token);
    }
  }

  /**
   * `re.search(r'Generated password:\s*(\S+)', s, re.IGNORECASE)` from
   * index `p` on: the capture of the leftmost match, if any.
   */
  function SearchFrom(s: string, p: nat): (r: Option<string>)
    ensures r.None? ==> forall p': nat, t :: p <= p' ==> !CapturesAt(s, p', t)
    ensures r.Some? ==> exists p': nat :: p <= p' && CapturesAt(s, p', r.value)
                                          && forall p'': nat, t :: p <= p'' < p' ==> !CapturesAt(s, p'', t)
    decreases |s| - p
  {
    if p + |Marker| > |s| then None
    else
      CaptureIsTokenAfter(s, p, TokenAfter(s, p + |Marker|));
      if OccursAt(Lower(s), Marker, p) && TokenAfter(s, p + |Marker|) != [] then
        Some(TokenAfter(s, p + |Marker|))
      else
        assert forall t :: !CapturesAt(s, p, t) by {
          forall t ensures !CapturesAt(s, p, t) {
            CaptureIsTokenAfter(s, p, t);
          }
        }
        SearchFrom(s, p + 1)
  }

  /**
   * The value `create_account` returns once the session has produced its
   * two outputs. `password` is the empty string throughout (line 87); only
   * the extracted password replaces it.
   */
  function CreateAccountOutcome(ldapOutput: string, transcript: string, username: string,
                                customPassword: string): (r: Option<string>)
    ensures r.Some? <==>
              !AlreadyExists(ldapOutput, username)
              && (exists k :: 0 <= k < |SuccessKeywords(username)| && Contains(Lower(transcript), SuccessKeywords(username)[k]))
              && (forall k :: 0 <= k < |ErrorKeywords| ==> !Contains(Lower(transcript), ErrorKeywords[k]))
    ensures r.Some? && customPassword != "" ==> r.value == ""
    ensures r.Some? && customPassword == "" ==> (r.value == "" <==> forall p: nat, t :: !CapturesAt(transcript, p, t))
    ensures r.Some? && r.value != "" ==> FirstCapture(transcript, r.value)
  {
    var password := "";
    if AlreadyExists(ldapOutput, username) then None
    else if !ScriptSucceeded(transcript, username) then None
    else if customPassword == "" && Contains(Lower(transcript), Marker) then
      match SearchFrom(transcript, 0)
      case Some(extracted) => Some(extracted)
      case None => Some(password)
    else
      NoMarkerNoCapture(transcript);
      Some(password)
  }

  lemma NoMarkerNoCapture(s: string)
    ensures !Contains(Lower(s), Marker) ==> forall p: nat, t :: !CapturesAt(s, p, t)
  {
    forall p: nat, t | CapturesAt(s, p, t)
      ensures Contains(Lower(s), Marker)
    {
      OccursAtContains(Lower(s), Marker, p);
    }
  }

  /**
   * `create_account`. The session is given as its two parts: the LDAP
   * query, asked first, and the shell run, asked only for a new name.
   * Every exception in either part is caught and becomes `None`.
   */
  function CreateAccount(ldap: LdapQuery, shell: ShellRun, scriptPath: string, sudoPassword: string,
                         username: string, group: string, professor: string, customPassword: string): (r: Option<string>)
    ensures ldap(username).None? ==> r.None?
    ensures r.Some? <==>
              var input := ShellInput(scriptPath, sudoPassword, username, group, professor, customPassword);
              && ldap(username).Some? && !AlreadyExists(ldap(username).value, username)
              && shell(input).Some? && ScriptSucceeded(shell(input).value, username)
    ensures r.Some? && customPassword != "" ==> r.value == ""
    ensures r.Some? && customPassword == "" ==>
              var transcript := shell(ShellInput(scriptPath, sudoPassword, username, group, professor, customPassword)).value;
              r.value == match SearchFrom(transcript, 0) case Some(t) => t case None => ""
  {
    match ldap(username)
    case None => None
    case Some(ldapOutput) =>
      if AlreadyExists(ldapOutput, username) then None
      else
        var input := ShellInput(scriptPath, sudoPassword, username, group, professor, customPassword);
        match shell(input)
        case None => None
        case Some(transcript) =>
          MarkerGateRedundant(ldapOutput, transcript, username);
          CreateAccountOutcome(ldapOutput, transcript, username, customPassword)
  }

  /**
   * A name the query finds, or a query that raises, ends `create_account`
   * before the interactive shell is opened: the result does not depend on
   * the shell at all.
   */
  lemma DuplicateTypesNothing(ldap: LdapQuery, shell1: ShellRun, shell2: ShellRun, scriptPath: string,
                              sudoPassword: string, username: string, group: string, professor: string,
                              customPassword: string)
    requires ldap(username).None? || AlreadyExists(ldap(username).value, username)
    ensures CreateAccount(ldap, shell1, scriptPath, sudoPassword, username, group, professor, customPassword) == None
    ensures CreateAccount(ldap, shell1, scriptPath, sudoPassword, username, group, professor, customPassword)
            == CreateAccount(ldap, shell2, scriptPath, sudoPassword, username, group, professor, customPassword)
  {
  }

  /** The custom password never reaches the script: the typed lines are the same whatever it is. */
  lemma CustomPasswordNeverSent(scriptPath: string, sudoPassword: string, username: string, group: string,
                                professor: string, customPassword: string)
    ensures ShellInput(scriptPath, sudoPassword, username, group, professor, customPassword)
            == ShellInput(scriptPath, sudoPassword, username, group, professor, "")
    ensures customPassword !in ShellInput(scriptPath, sudoPassword, username, group, professor, customPassword)[5..]
            <==> customPassword != ""
  {
  }

  /** An existing name vetoes the creation, whatever the script would have printed. */
  lemma DuplicateVetoes(ldapOutput: string, transcript: string, username: string, customPassword: string)
    requires Contains(ldapOutput, "cn: " + username)
    ensures CreateAccountOutcome(ldapOutput, transcript, username, customPassword) == None
  {
  }

  /**
   * The duplicate test is a substring test: an existing entry whose name
   * merely starts with `username` also counts.
   */
  lemma PrefixNameCountsAsDuplicate(ldapOutput: string, username: string, suffix: string)
    requires Contains(ldapOutput, "cn: " + username + suffix)
    ensures AlreadyExists(ldapOutput, username)
  {
    var w := "cn: " + username + suffix;
    ContainsInfix(ldapOutput, w, 0, |"cn: " + username|);
    assert w[0..|"cn: " + username|] == "cn: " + username;
  }

  /** One error keyword anywhere in the transcript, in any case, is a failure even next to a success message. */
  lemma ErrorKeywordVetoes(ldapOutput: string, transcript: string, username: string, customPassword: string, k: nat)
    requires k < |ErrorKeywords|
    requires Contains(Lower(transcript), ErrorKeywords[k])
    ensures CreateAccountOutcome(ldapOutput, transcript, username, customPassword) == None
  {
  }

  /**
   * The keyword naming the user ends in "successfully", itself a keyword:
   * the verdict on a transcript does not depend on the user name.
   */
  lemma SucceededIndependentOfUsername(transcript: string, username: string, other: string)
    ensures ScriptSucceeded(transcript, username) == ScriptSucceeded(transcript, other)
  {
    var lowered := Lower(transcript);
    UserKeywordImpliesSuccessfully(lowered, username);
    UserKeywordImpliesSuccessfully(lowered, other);
    assert SuccessKeywords(username)[1] == "successfully" == SuccessKeywords(other)[1];
    assert forall k :: 0 <= k < 5 && k != 2 ==> SuccessKeywords(username)[k] == SuccessKeywords(other)[k];
  }

  lemma UserKeywordImpliesSuccessfully(lowered: string, username: string)
    ensures Contains(lowered, SuccessKeywords(username)[2]) ==> Contains(lowered, "successfully")
  {
    var w := SuccessKeywords(username)[2];
    var prefix := "user " + username + " added to ldap ";
    var j := |prefix|;
    assert w == prefix + "successfully";
    assert w[j..|w|] == "successfully";
    if Contains(lowered, w) {
      ContainsInfix(lowered, w, j, |w|);
    }
  }

  /**
   * A custom password only turns the extracted password into "": the
   * verdict is the same, and the value returned is always the empty string.
   */
  lemma CustomPasswordIgnored(ldapOutput: string, transcript: string, username: string, customPassword: string)
    requires customPassword != ""
    ensures CreateAccountOutcome(ldapOutput, transcript, username, customPassword)
            == if CreateAccountOutcome(ldapOutput, transcript, username, "").Some? then Some("") else None
  {
  }

  /**
   * The test for "generated password:" before the search changes nothing:
   * with a blank custom password, a created account gets what the search
   * captures, or "" when it captures nothing.
   */
  lemma MarkerGateRedundant(ldapOutput: string, transcript: string, username: string)
    ensures var r := CreateAccountOutcome(ldapOutput, transcript, username, "");
            r.Some? ==> r.value == match SearchFrom(transcript, 0) case Some(t) => t case None => ""
  {
    NoMarkerNoCapture(transcript);
  }

  /** The search passes over positions without the marker and stops at the first one that has it. */
  lemma {:induction false} SearchSkipsToMarker(s: string, p: nat, m: nat)
    requires p <= m && m + |Marker| <= |s|
    requires forall p' :: p <= p' < m ==> !OccursAt(Lower(s), Marker, p')
    requires OccursAt(Lower(s), Marker, m) && TokenAfter(s, m + |Marker|) != []
    ensures SearchFrom(s, p) == Some(TokenAfter(s, m + |Marker|))
    decreases m - p
  {
    if p < m {
      assert !OccursAt(Lower(s), Marker, p);
      SearchSkipsToMarker(s, p + 1, m);
      assert SearchFrom(s, p) == SearchFrom(s, p + 1);
    } else {
      assert SearchFrom(s, p) == Some(TokenAfter(s, p + |Marker|));
    }
  }

  lemma LowerSlice(s: string, i: nat, j: nat)
    requires i <= j <= |s|
    ensures Lower(s)[i..j] == Lower(s[i..j])
  {
  }

  lemma AnnouncementFoldsToMarker()
    ensures Lower("Generated password:") == Marker
  {
  }

  /** Whether the marker occurs before `m` is decided by the text up to the end of a marker at `m`. */
  lemma MarkerFreePrefix(s: string, head: string, m: nat)
    requires m + |Marker| == |head| <= |s| && s[..|head|] == head
    requires forall p :: 0 <= p < m ==> !OccursAt(Lower(head), Marker, p)
    ensures forall p :: 0 <= p < m ==> !OccursAt(Lower(s), Marker, p)
  {
    forall p | 0 <= p < m
      ensures !OccursAt(Lower(s), Marker, p)
    {
      var e := p + |Marker|;
      LowerSlice(s, p, e);
      LowerSlice(head, p, e);
      assert s[..|head|][p..e] == s[p..e];
      assert !OccursAt(Lower(head), Marker, p) && |Lower(head)| == |head|;
    }
  }

  /**
   * A transcript whose first marker is the line `Generated password: <token>`
   * (the token followed by whitespace or the end) yields that token.
   */
  lemma ExtractsAnnouncedPassword(pre: string, token: string, post: string)
    requires forall p :: 0 <= p < |pre| ==> !OccursAt(Lower(pre + "Generated password:"), Marker, p)
    requires token != [] && NoSpace(token)
    requires post == [] || IsSpace(post[0])
    ensures SearchFrom(pre + "Generated password: " + token + post, 0) == Some(token)
  {
    var head := pre + "Generated password:";
    var s := pre + "Generated password: " + token + post;
    var m := |pre|;
    var k := m + |Marker|;
    assert s == head + " " + token + post;
    assert s[..|head|] == head;
    MarkerFreePrefix(s, head, m);
    assert s[m..k] == "Generated password:";
    LowerSlice(s, m, k);
    AnnouncementFoldsToMarker();
    assert Lower(s)[m..k] == Marker;
    assert s[k..k + 1] == " ";
    assert s[k + 1..k + 1 + |token|] == token;
    assert SpacesThenToken(s, k, k + 1, token);
    SpacesThenTokenIsTokenAfter(s, k, k + 1, token);
    SearchSkipsToMarker(s, 0, m);
  }

  /** With a blank custom password, a created account gets the announced password. */
  lemma AnnouncedPasswordIsReturned(ldapOutput: string, username: string, pre: string, token: string, post: string)
    requires forall p :: 0 <= p < |pre| ==> !OccursAt(Lower(pre + "Generated password:"), Marker, p)
    requires token != [] && NoSpace(token)
    requires post == [] || IsSpace(post[0])
    requires !AlreadyExists(ldapOutput, username)
    requires ScriptSucceeded(pre + "Generated password: " + token + post, username)
    ensures CreateAccountOutcome(ldapOutput, pre + "Generated password: " + token + post, username, "") == Some(token)
  {
    ExtractsAnnouncedPassword(pre, token, post);
    MarkerGateRedundant(ldapOutput, pre + "Generated password: " + token + post, username);
  }

  /**
   * The password line of the sample `add_user.sh` run: whatever comes
   * before it (without the marker) and after it (from the newline on),
   * the search captures "YUQ54LyaHtnS".
   */
  lemma SampleLineYieldsPassword(pre: string, post: string)
    requires forall p :: 0 <= p < |pre| ==> !OccursAt(Lower(pre + "Generated password:"), Marker, p)
    requires post == [] || post[0] == '\n'
    ensures SearchFrom(pre + "Generated password: YUQ54LyaHtnS" + post, 0) == Some("YUQ54LyaHtnS")
  {
    assert pre + "Generated password: YUQ54LyaHtnS" + post == pre + "Generated password: " + "YUQ54LyaHtnS" + post;
    ExtractsAnnouncedPassword(pre, "YUQ54LyaHtnS", post);
  }
}
