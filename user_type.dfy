/**
 * The user-type classifier `convert_user_type_to_group`
 * (auto_hpc_account.py:340-384): a free-text label from the application
 * form, in Chinese or English, becomes one of the five group codes of the
 * provisioning script.
 */
module UserType {
  import opened Wrappers
  import opened Text

  /** The group codes: 1 undergraduate, 2 master, 3 PhD, 4 professor, 5 admin. */
  predicate IsGroup(g: string)
  {
    g == "1" || g == "2" || g == "3" || g == "4" || g == "5"
  }

  /** `type_mapping`, in the order of its dict literal. */
  const TypeMapping: seq<(string, string)> := [
    ("大學部學生", "1"), ("大學部", "1"), ("undergrad", "1"), ("undergraduate", "1"),
    ("碩士班學生", "2"), ("碩士生", "2"), ("碩士", "2"), ("master", "2"),
    ("博士班學生", "3"), ("博士生", "3"), ("博士", "3"), ("phd", "3"),
    ("教授", "4"), ("professor", "4"),
    ("管理員", "5"), ("admin", "5")
  ]

  /** The dict lookup `type_mapping[t]`, guarded by `t in type_mapping`. */
  function ExactLookup(entries: seq<(string, string)>, t: string): (r: Option<string>)
    ensures r.None? <==> forall i :: 0 <= i < |entries| ==> entries[i].0 != t
    ensures r.Some? ==> exists i :: 0 <= i < |entries| && entries[i].0 == t && r.value == entries[i].1
                                    && forall j :: 0 <= j < i ==> entries[j].0 != t
  {
    if entries == [] then None
    else if entries[0].0 == t then Some(entries[0].1)
    else
      var r := ExactLookup(entries[1..], t);
      assert forall i :: 1 <= i < |entries| ==> entries[i] == entries[1..][i - 1];
      r
  }

  /** The scan for the first key whose lower-casing equals `lowered`. */
  function FoldedLookup(entries: seq<(string, string)>, lowered: string): (r: Option<string>)
    ensures r.None? <==> forall i :: 0 <= i < |entries| ==> Lower(entries[i].0) != lowered
    ensures r.Some? ==> exists i :: 0 <= i < |entries| && Lower(entries[i].0) == lowered && r.value == entries[i].1
                                    && forall j :: 0 <= j < i ==> Lower(entries[j].0) != lowered
  {
    if entries == [] then None
    else if Lower(entries[0].0) == lowered then Some(entries[0].1)
    else
      var r := FoldedLookup(entries[1..], lowered);
      assert forall i :: 1 <= i < |entries| ==> entries[i] == entries[1..][i - 1];
      r
  }

  function ConvertUserTypeToGroup(userType: string): (group: string)
    ensures IsGroup(group)
  {
    MappingValuesAreGroups();
    var t := Strip(userType);
    match ExactLookup(TypeMapping, t)
    case Some(g) => g
    case None =>
      match FoldedLookup(TypeMapping, Lower(t))
      case Some(g) => g
      case None => "1"
  }

  /** What the case-insensitive scan alone would give for a lower-cased label. */
  function GroupOfLowered(lowered: string): string
  {
    match FoldedLookup(TypeMapping, lowered)
    case Some(g) => g
    case None => "1"
  }

  lemma MappingValuesAreGroups()
    ensures forall i :: 0 <= i < |TypeMapping| ==> IsGroup(TypeMapping[i].1)
  {
  }

  lemma MappingKeysAreLowerCase()
    ensures forall i :: 0 <= i < |TypeMapping| ==> Lower(TypeMapping[i].0) == TypeMapping[i].0
  {
    forall i | 0 <= i < |TypeMapping|
      ensures Lower(TypeMapping[i].0) == TypeMapping[i].0
    {
      var k := TypeMapping[i].0;
      assert forall j :: 0 <= j < |k| ==> !('A' <= k[j] <= 'Z');
    }
  }

  /**
   * In a table whose keys are all lower-case, a hit of the exact lookup is
   * also the first hit of the case-insensitive scan.
   */
  lemma {:induction false} ExactHitIsFirstFoldedHit(entries: seq<(string, string)>, t: string)
    requires forall i :: 0 <= i < |entries| ==> Lower(entries[i].0) == entries[i].0
    requires ExactLookup(entries, t).Some?
    ensures FoldedLookup(entries, Lower(t)) == ExactLookup(entries, t)
  {
    if entries[0].0 != t {
      var i :| 0 <= i < |entries| && entries[i].0 == t;
      assert Lower(t) == t;
      assert forall i :: 1 <= i < |entries| ==> entries[i] == entries[1..][i - 1];
      ExactHitIsFirstFoldedHit(entries[1..], t);
    }
  }

  /** The outcome depends only on the stripped, lower-cased label. */
  lemma ConvertDependsOnLoweredLabel(userType: string)
    ensures ConvertUserTypeToGroup(userType) == GroupOfLowered(Lower(Strip(userType)))
  {
    var t := Strip(userType);
    if ExactLookup(TypeMapping, t).Some? {
      MappingKeysAreLowerCase();
      ExactHitIsFirstFoldedHit(TypeMapping, t);
    }
  }

  /** A label whose trimmed, lower-cased form is the i-th key (and no earlier one) gets that key's group. */
  lemma ConvertKnownLabel(userType: string, i: nat)
    requires i < |TypeMapping|
    requires Lower(TypeMapping[i].0) == Lower(Strip(userType))
    requires forall j :: 0 <= j < i ==> Lower(TypeMapping[j].0) != Lower(Strip(userType))
    ensures ConvertUserTypeToGroup(userType) == TypeMapping[i].1
  {
    ConvertDependsOnLoweredLabel(userType);
  }

  /** A label that matches no key, even ignoring case and padding, defaults to undergraduate. */
  lemma ConvertUnknownLabel(userType: string)
    requires forall i :: 0 <= i < |TypeMapping| ==> Lower(TypeMapping[i].0) != Lower(Strip(userType))
    ensures ConvertUserTypeToGroup(userType) == "1"
  {
    ConvertDependsOnLoweredLabel(userType);
  }

  /** Padding and ASCII case never change the group. */
  lemma ConvertIgnoresPaddingAndCase(userType: string)
    ensures ConvertUserTypeToGroup(userType) == ConvertUserTypeToGroup(Lower(Strip(userType)))
  {
    var t := Strip(userType);
    ConvertDependsOnLoweredLabel(userType);
    ConvertDependsOnLoweredLabel(Lower(t));
    StripLowerCommute(t);
    StripIdempotent(userType);
    LowerIdempotent(t);
  }

  /** A key with no Latin letter (the Chinese ones) is reached only by that exact text, up to padding. */
  lemma ChineseKeysMatchOnlyExactly(userType: string, i: nat)
    requires i < |TypeMapping|
    requires forall j :: 0 <= j < |TypeMapping[i].0| ==> !('a' <= TypeMapping[i].0[j] <= 'z')
    requires Lower(Strip(userType)) == Lower(TypeMapping[i].0)
    ensures Strip(userType) == TypeMapping[i].0
  {
    MappingKeysAreLowerCase();
    LowerOnlyFixesItself(Strip(userType), TypeMapping[i].0);
  }

  lemma StripsPaddedMaster()
    ensures Strip(" Master ") == "Master"
  {
    var u := " Master ";
    assert LeadingSpaces(u) == 1;
    assert u[1..] == "Master ";
    assert TrailingSpaces("Master ") == 1;
  }

  /** " Master " is trimmed and folded onto the key "master". */
  lemma ConvertPaddedMaster()
    ensures ConvertUserTypeToGroup(" Master ") == "2"
  {
    StripsPaddedMaster();
    assert Lower("Master") == "master";
    assert forall j :: 0 <= j < 7 ==> Lower(TypeMapping[j].0) != "master" by {
      MappingKeysAreLowerCase();
      assert forall j :: 0 <= j < 7 ==> |TypeMapping[j].0| != 6;
    }
    ConvertKnownLabel(" Master ", 7);
  }

  lemma ConvertMixedCasePhd()
    ensures ConvertUserTypeToGroup("PhD") == "3"
  {
    var u := "PhD";
    assert LeadingSpaces(u) == 0 && u[0..] == u;
    assert TrailingSpaces(u) == 0 && u[..3] == u;
    assert Lower(u) == "phd";
    MappingKeysAreLowerCase();
    assert forall j :: 0 <= j < 11 ==> TypeMapping[j].0 != "phd" by {
      assert forall j :: 0 <= j < 11 ==> |TypeMapping[j].0| != 3 || TypeMapping[j].0[0] != 'p';
    }
    ConvertKnownLabel(u, 11);
  }

  lemma ConvertChineseUndergraduate()
    ensures ConvertUserTypeToGroup("大學部學生") == "1"
  {
    var u := "大學部學生";
    assert LeadingSpaces(u) == 0 && u[0..] == u;
    assert TrailingSpaces(u) == 0 && u[..5] == u;
    MappingKeysAreLowerCase();
    ConvertKnownLabel(u, 0);
  }

  /** A label the table does not know falls back to undergraduate. */
  lemma ConvertUnknownPostdoc()
    ensures ConvertUserTypeToGroup("Postdoc") == "1"
  {
    var u := "Postdoc";
    assert LeadingSpaces(u) == 0 && u[0..] == u;
    assert TrailingSpaces(u) == 0 && u[..7] == u;
    MappingKeysAreLowerCase();
    assert forall j :: 0 <= j < |TypeMapping| ==> |TypeMapping[j].0| != 7;
    ConvertUnknownLabel(u);
  }
}
