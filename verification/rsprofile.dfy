/**
 `parse_rsprofile_properties` of src/bot.py: read a RuneLite profile
 properties text, choose one account and return its display name and its
 personal bests in whole seconds, sorted by lower-cased boss name.
 */
module RsProfile {
  import opened Wrappers
  import opened Text
  import opened Assoc
  import opened Numbers
  import opened Escapes
  import opened Sorting
  import opened Records
  import opened Patterns

  /** Account id to (boss label to raw value), both in first-insertion order. */
  type PbMap = Assoc<string, Assoc<string, string>>

  /** The personal best one raw line records, with label and value stripped:
      only a line that is not ignored and not a declaration can record one. */
  function PbOf(raw: string): Option<(string, string, string)>
  {
    var line := Strip(raw);
    if Ignored(line) || ClassifyDecl(line) != NoDecl then None
    else
      match MatchPb(line)
      case Some((h, b, v)) => Some((h, Strip(b), Strip(v)))
      case None => None
  }

  /** What each line records, line by line. */
  function PbRecords(lines: seq<string>): (rs: seq<Option<(string, string, string)>>)
    ensures |rs| == |lines|
    ensures forall i :: 0 <= i < |lines| ==> rs[i] == PbOf(lines[i])
  {
    seq(|lines|, i requires 0 <= i < |lines| => PbOf(lines[i]))
  }

  /** The loop over the lines, as far as it concerns `pbs`. */
  function CollectPbs(lines: seq<string>): (pbs: PbMap)
    ensures UniqueKeys(pbs)
  {
    FoldPbs(PbRecords(lines))
  }

  /** Only lines that match the personal-best pattern fill `pbs`. */
  lemma CollectPbsEmpty(lines: seq<string>)
    ensures CollectPbs(lines) == [] <==> forall i :: 0 <= i < |lines| ==> PbOf(lines[i]).None?
  {
    FoldPbsEmpty(PbRecords(lines));
  }

  /** An account that can be chosen first: typed STANDARD, with PBs. */
  predicate Eligible(p: (string, string), pbs: PbMap) {
    p.1 == "STANDARD" && p.0 in Keys(pbs)
  }

  /** The position of the first eligible account in `types`, or `|types|`. */
  function FirstEligible(types: Assoc<string, string>, pbs: PbMap): (i: nat)
    ensures i <= |types|
    ensures i < |types| ==> Eligible(types[i], pbs)
    ensures forall j :: 0 <= j < i ==> !Eligible(types[j], pbs)
  {
    if types == [] then 0
    else if Eligible(types[0], pbs) then 0
    else 1 + FirstEligible(types[1..], pbs)
  }

  /** The chosen account: the first eligible one, else the first with PBs. */
  function ChooseAccount(types: Assoc<string, string>, pbs: PbMap): (h: string)
    requires UniqueKeys(types) && pbs != []
    ensures h in Keys(pbs)
    ensures (exists i :: 0 <= i < |types| && Eligible(types[i], pbs)) ==> Get(types, h) == Some("STANDARD")
    ensures (exists i :: 0 <= i < |types| && Eligible(types[i], pbs)) ==>
      exists i :: 0 <= i < |types| && types[i].0 == h && Eligible(types[i], pbs) && forall j :: 0 <= j < i ==> !Eligible(types[j], pbs)
    ensures (forall i :: 0 <= i < |types| ==> !Eligible(types[i], pbs)) ==> h == pbs[0].0
  {
    var i := FirstEligible(types, pbs);
    if i < |types| then
      GetAt(types, i);
      types[i].0
    else pbs[0].0
  }

  /** One pass of the inner loop: the label unescaped and the value
      coerced to whole seconds, or nothing when the value is no number. */
  function Coerce(p: (string, string)): Option<BossTime>
  {
    match ParseSeconds(p.1)
    case Some(s) => Some(BossTime(Unescape(p.0), s))
    case None => None
  }

  /** The inner loop over the chosen account's pairs. */
  function Collect(entries: Assoc<string, string>): (times: seq<BossTime>)
    ensures |times| <= |entries|
  {
    FilterMap(entries, Coerce)
  }

  lemma CoerceIs(p: (string, string), e: BossTime)
    ensures Coerce(p) == Some(e) <==> Unescape(p.0) == e.boss && ParseSeconds(p.1) == Some(e.fastest)
  {
  }

  /** What the inner loop keeps: exactly one entry per label whose value parses. */
  lemma CollectMembers(entries: Assoc<string, string>, e: BossTime)
    ensures e in Collect(entries) <==>
      exists i :: 0 <= i < |entries| && Unescape(entries[i].0) == e.boss && ParseSeconds(entries[i].1) == Some(e.fastest)
  {
    forall i | 0 <= i < |entries| {
      CoerceIs(entries[i], e);
    }
    if e in Collect(entries) {
      var i := FilterMapSound(entries, Coerce, e);
    }
    if i :| 0 <= i < |entries| && Coerce(entries[i]) == Some(e) {
      FilterMapComplete(entries, Coerce, i);
    }
  }

  /** The pair the function returns: `osrs_name` and `boss_data`. */
  datatype Profile = Profile(name: Option<string>, times: seq<BossTime>)

  /** `parse_rsprofile_properties(text)`. */
  function ParseProperties(text: string): (p: Profile)
    ensures SortedBy(p.times, BossKey)
  {
    var lines := SplitLines(text);
    var pbs := CollectPbs(lines);
    if pbs == [] then Profile(None, [])
    else
      var d := Declare(lines, true);
      var chosen := ChooseAccount(d.types, pbs);
      var times := Collect(GetOr(pbs, chosen, []));
      SortBySorted(times, BossKey);
      Profile(Get(d.names, chosen), SortBy(times, BossKey))
  }

  /** The account whose personal bests are returned, when there are any. */
  function Chosen(text: string): string
    requires CollectPbs(SplitLines(text)) != []
  {
    var lines := SplitLines(text);
    ChooseAccount(Declare(lines, true).types, CollectPbs(lines))
  }

  /** Without personal-best lines the result is `(None, [])`. */
  lemma ParsePropertiesNoPbs(text: string)
    requires forall i :: 0 <= i < |SplitLines(text)| ==> PbOf(SplitLines(text)[i]).None?
    ensures ParseProperties(text) == Profile(None, [])
  {
    CollectPbsEmpty(SplitLines(text));
  }

  /** With personal-best lines: the name is the chosen account's last
      display name, and the times are that account's parsed entries, each
      kept once, reordered by lower-cased label with ties in file order. */
  lemma ParsePropertiesResult(text: string, e: BossTime, k: string)
    requires CollectPbs(SplitLines(text)) != []
    ensures var p := ParseProperties(text);
      var lines := SplitLines(text);
      var entries := GetOr(CollectPbs(lines), Chosen(text), []);
      && p.name == LastDeclared(lines, Chosen(text), true, false)
      && multiset(p.times) == multiset(Collect(entries))
      && WithKey(p.times, BossKey, k) == WithKey(Collect(entries), BossKey, k)
      && (e in p.times <==>
           exists i :: 0 <= i < |entries| && Unescape(entries[i].0) == e.boss && ParseSeconds(entries[i].1) == Some(e.fastest))
  {
    var lines := SplitLines(text);
    var entries := GetOr(CollectPbs(lines), Chosen(text), []);
    var times := Collect(entries);
    DeclareLastWins(lines, Chosen(text), true);
    SortByPermutes(times, BossKey);
    SortByStable(times, BossKey, k);
    CollectMembers(entries, e);
    assert e in SortBy(times, BossKey) <==> e in times by {
      assert e in SortBy(times, BossKey) <==> e in multiset(SortBy(times, BossKey));
      assert e in times <==> e in multiset(times);
    }
  }

  /** An account that can be chosen first, in terms of the lines: its
      last type line says STANDARD and some line records a PB for it. */
  predicate EligibleByLines(lines: seq<string>, h: string) {
    LastDeclared(lines, h, true, true) == Some("STANDARD") && HasPb(PbRecords(lines), h)
  }

  /** The account choice, in terms of the lines: among the accounts in the
      order of their first type lines, the first one that is eligible by
      its lines; without one, the account of the first PB line. */
  lemma ChosenAccount(text: string)
    requires CollectPbs(SplitLines(text)) != []
    ensures var lines := SplitLines(text);
      var ids := FirstOccurrences(TypeIds(lines, true));
      var pbs := CollectPbs(lines);
      && HasPb(PbRecords(lines), Chosen(text))
      && Keys(Declare(lines, true).types) == ids
      && ((exists i :: 0 <= i < |ids| && EligibleByLines(lines, ids[i])) ==> Chosen(text) in ids && EligibleByLines(lines, Chosen(text)))
      && (forall i, j :: 0 <= j < i < |ids| && ids[i] == Chosen(text) ==> !EligibleByLines(lines, ids[j]))
      && ((forall i :: 0 <= i < |ids| ==> !EligibleByLines(lines, ids[i])) ==> Chosen(text) == pbs[0].0)
      && ((forall i :: 0 <= i < |ids| ==> !EligibleByLines(lines, ids[i])) ==>
            PbIds(PbRecords(lines)) != [] && Chosen(text) == PbIds(PbRecords(lines))[0])
  {
    ChosenByLines(SplitLines(text));
  }

  /** `ChosenAccount` for the lines of the file. */
  lemma ChosenByLines(lines: seq<string>)
    requires CollectPbs(lines) != []
    ensures var ids := FirstOccurrences(TypeIds(lines, true));
      var pbs := CollectPbs(lines);
      var h := ChooseAccount(Declare(lines, true).types, pbs);
      && HasPb(PbRecords(lines), h)
      && Keys(Declare(lines, true).types) == ids
      && ((exists i :: 0 <= i < |ids| && EligibleByLines(lines, ids[i])) ==> h in ids && EligibleByLines(lines, h))
      && (forall i, j :: 0 <= j < i < |ids| && ids[i] == h ==> !EligibleByLines(lines, ids[j]))
      && ((forall i :: 0 <= i < |ids| ==> !EligibleByLines(lines, ids[i])) ==> h == pbs[0].0)
      && ((forall i :: 0 <= i < |ids| ==> !EligibleByLines(lines, ids[i])) ==>
            PbIds(PbRecords(lines)) != [] && h == PbIds(PbRecords(lines))[0])
  {
    var types := Declare(lines, true).types;
    var pbs := CollectPbs(lines);
    FoldPbsKeys(PbRecords(lines), ChooseAccount(types, pbs));
    FoldPbsFirst(PbRecords(lines));
    EligibleAgree(lines);
    var ids := FirstOccurrences(TypeIds(lines, true));
    var k := FirstEligible(types, pbs);
    ChosenEligible(lines, types, pbs, ids, ChooseAccount(types, pbs), k);
    NoneBeforeChosen(lines, types, pbs, ids, ChooseAccount(types, pbs), k);
    ChosenWhenNone(lines, types, pbs, ids, ChooseAccount(types, pbs), k);
  }

  /** The two readings of eligibility agree position by position, the
      accounts being in the order of their first type lines. */
  lemma EligibleAgree(lines: seq<string>)
    ensures var types := Declare(lines, true).types;
      var ids := FirstOccurrences(TypeIds(lines, true));
      && Keys(types) == ids
      && forall i :: 0 <= i < |types| ==> (Eligible(types[i], CollectPbs(lines)) <==> EligibleByLines(lines, ids[i]))
  {
    DeclareTypeOrder(lines, true);
    var types := Declare(lines, true).types;
    forall i | 0 <= i < |types|
      ensures Eligible(types[i], CollectPbs(lines)) <==> EligibleByLines(lines, types[i].0)
    {
      EligibleLines(lines, i);
    }
  }

  /** When some account is eligible by the lines, the chosen one is,
      the two readings of eligibility agreeing position by position. */
  lemma ChosenEligible(lines: seq<string>, types: Assoc<string, string>, pbs: PbMap, ids: seq<string>, h: string, k: nat)
    requires Keys(types) == ids && UniqueKeys(types) && pbs != []
    requires forall i :: 0 <= i < |types| ==> (Eligible(types[i], pbs) <==> EligibleByLines(lines, ids[i]))
    requires k == FirstEligible(types, pbs) && h == if k < |types| then types[k].0 else pbs[0].0
    ensures (exists i :: 0 <= i < |ids| && EligibleByLines(lines, ids[i])) ==> h in ids && EligibleByLines(lines, h)
  {
    if k < |types| {
      assert h == ids[k];
    } else {
      NoneEligible(lines, types, pbs, ids, k);
    }
  }

  /** No account before the chosen one is eligible by the lines. */
  lemma NoneBeforeChosen(lines: seq<string>, types: Assoc<string, string>, pbs: PbMap, ids: seq<string>, h: string, k: nat)
    requires Keys(types) == ids && UniqueKeys(types) && pbs != []
    requires forall i :: 0 <= i < |types| ==> (Eligible(types[i], pbs) <==> EligibleByLines(lines, ids[i]))
    requires k == FirstEligible(types, pbs) && h == if k < |types| then types[k].0 else pbs[0].0
    ensures forall i, j :: 0 <= j < i < |ids| && ids[i] == h ==> !EligibleByLines(lines, ids[j])
  {
    NoneEligible(lines, types, pbs, ids, k);
    if k < |types| {
      forall i, j | 0 <= j < i < |ids| && ids[i] == h
        ensures !EligibleByLines(lines, ids[j])
      {
        assert types[i].0 == types[k].0;
      }
    }
  }

  /** With no account eligible by the lines, the first with PBs is chosen. */
  lemma ChosenWhenNone(lines: seq<string>, types: Assoc<string, string>, pbs: PbMap, ids: seq<string>, h: string, k: nat)
    requires Keys(types) == ids && UniqueKeys(types) && pbs != []
    requires forall i :: 0 <= i < |types| ==> (Eligible(types[i], pbs) <==> EligibleByLines(lines, ids[i]))
    requires k == FirstEligible(types, pbs) && h == if k < |types| then types[k].0 else pbs[0].0
    ensures (forall i :: 0 <= i < |ids| ==> !EligibleByLines(lines, ids[i])) ==> h == pbs[0].0
  {
    if k < |types| {
      assert EligibleByLines(lines, ids[k]);
    }
  }

  /** No eligible account among the first `n` by the one reading means
      none by the other. */
  lemma NoneEligible(lines: seq<string>, types: Assoc<string, string>, pbs: PbMap, ids: seq<string>, n: nat)
    requires n <= |types| == |ids|
    requires forall i :: 0 <= i < |types| ==> (Eligible(types[i], pbs) <==> EligibleByLines(lines, ids[i]))
    requires forall i :: 0 <= i < n ==> !Eligible(types[i], pbs)
    ensures forall i :: 0 <= i < n ==> !EligibleByLines(lines, ids[i])
  {
    forall i | 0 <= i < n
      ensures !EligibleByLines(lines, ids[i])
    {
      assert !Eligible(types[i], pbs);
    }
  }


  /** The two readings of eligibility agree on every declared account. */
  lemma EligibleLines(lines: seq<string>, i: nat)
    requires i < |Declare(lines, true).types|
    ensures var t := Declare(lines, true).types[i];
      Eligible(t, CollectPbs(lines)) <==> EligibleByLines(lines, t.0)
  {
    var types := Declare(lines, true).types;
    GetAt(types, i);
    DeclareLastWins(lines, types[i].0, true);
    FoldPbsKeys(PbRecords(lines), types[i].0);
  }

  /** The chosen account's raw entries: each label holds the value of its
      last personal-best line for that account. */
  lemma ChosenEntries(text: string, b: string)
    requires CollectPbs(SplitLines(text)) != []
    ensures var lines := SplitLines(text);
      Get(GetOr(CollectPbs(lines), Chosen(text), []), b) == LastPb(PbRecords(lines), Chosen(text), b)
  {
    FoldPbsLastWins(PbRecords(SplitLines(text)), Chosen(text), b);
  }
}
