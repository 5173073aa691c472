/**
 src/profile_parser.py and pb-puller.py: the same declaration lines as the
 properties reader of src/bot.py, with different choices. Personal-best
 lines are cut at the first '=' and on dots instead of matched, accounts
 are selected by game mode and keyed by display name, and the file is a
 list of lines.
 */
module ProfileParser {
  import opened Wrappers
  import opened Text
  import opened Assoc
  import opened Numbers
  import opened Patterns

  /** The outcome of `_parse_pb`: a triple, the `(None, None, None)` of a
      caught `ValueError`, or the `IndexError` it does not catch. */
  datatype PbParse = PbParsed(hash: string, name: string, value: real) | PbRejected | PbIndexError

  /** The number of times `c` occurs in `s`. */
  function Count(s: string, c: char): nat
  {
    if s == [] then 0 else (if s[0] == c then 1 else 0) + Count(s[1..], c)
  }

  lemma {:induction false} CountAppend(a: string, b: string, c: char)
    ensures Count(a + b, c) == Count(a, c) + Count(b, c)
    decreases |a|
  {
    if a != [] {
      assert (a + b)[0] == a[0];
      assert (a + b)[1..] == a[1..] + b;
      CountAppend(a[1..], b, c);
    } else {
      assert a + b == b;
    }
  }

  lemma {:induction false} CountAbsent(s: string, c: char)
    requires c !in s
    ensures Count(s, c) == 0
    decreases |s|
  {
    if s != [] {
      CountAbsent(s[1..], c);
    }
  }

  /** A split has one piece more than there are separators. */
  lemma {:induction false} SplitCount(s: string, sep: char)
    ensures |Split(s, sep)| == Count(s, sep) + 1
    decreases |s|
  {
    var i := IndexOf(s, sep);
    if i == |s| {
      CountAbsent(s, sep);
    } else {
      SplitCount(s[i + 1..], sep);
      assert s == s[..i] + ([sep] + s[i + 1..]);
      CountAppend(s[..i], [sep] + s[i + 1..], sep);
      CountAppend([sep], s[i + 1..], sep);
      CountAbsent(s[..i], sep);
      assert [sep][1..] == [];
    }
  }

  /** Splitting past a separator-free first piece. */
  lemma SplitCons(a: string, sep: char, b: string)
    requires sep !in a
    ensures Split(a + [sep] + b, sep) == [a] + Split(b, sep)
  {
    var s := a + [sep] + b;
    IndexOfAfterFree(a, sep, b);
    assert s[..|a|] == a;
    assert s[|a| + 1..] == b;
  }

  /** `_parse_pb(line)`: split at the first '=', take the third dotted part
      of the key as the account and the rest of the key, rejoined with
      dots and with `\ ` unescaped, as the boss name. */
  function ParsePb(line: string): (r: PbParse)
  {
    var eq := IndexOf(line, '=');
    if eq == |line| then PbRejected
    else
      var parts := Split(line[..eq], '.');
      if |parts| < 3 then PbIndexError
      else
        match ParseDecimal(line[eq + 1..])
        case None => PbRejected
        case Some(x) => PbParsed(parts[2], ReplaceAll(Join(parts[3..], "."), "\\ ", " "), x)
  }

  /** The error outcomes, by the shape of the line: no '=' or an
      unparsable value is rejected, and a key before the first '=' with
      fewer than two dots raises. */
  lemma ParsePbOutcomes(line: string)
    ensures ParsePb(line).PbIndexError? <==> '=' in line && Count(line[..IndexOf(line, '=')], '.') < 2
    ensures ParsePb(line).PbRejected? <==>
      '=' !in line || (Count(line[..IndexOf(line, '=')], '.') >= 2 && ParseDecimal(line[IndexOf(line, '=') + 1..]).None?)
  {
    var eq := IndexOf(line, '=');
    if eq < |line| {
      SplitCount(line[..eq], '.');
    }
  }

  /** The personal-best line of account `h` for boss `name` with value
      text `v`, as the profile file spells it. */
  function PbText(h: string, name: string, v: string): string
  {
    DottedKey("personalbest", "rsprofile", h, name) + "=" + v
  }

  /** `a.b.h.name`. */
  function DottedKey(a: string, b: string, h: string, name: string): string
  {
    a + ['.'] + (b + ['.'] + (h + ['.'] + name))
  }

  /** The fixed words of a personal-best key hold neither separator. */
  lemma PrefixWords()
    ensures '.' !in "personalbest" && '=' !in "personalbest"
    ensures '.' !in "rsprofile" && '=' !in "rsprofile"
  {
  }

  /** `_parse_pb` reads back every line it is meant for: the account, the
      boss name with its dots, and the value. */
  lemma ParsePbText(h: string, name: string, v: string)
    requires '.' !in h && '=' !in h
    requires '=' !in name && '\\' !in name
    requires ParseDecimal(v).Some?
    ensures ParsePb(PbText(h, name, v)) == PbParsed(h, name, ParseDecimal(v).value)
  {
    var a, b := "personalbest", "rsprofile";
    PrefixWords();
    ParseDotted(a, b, h, name, v);
  }

  /** Prepending three elements one at a time prepends their display. */
  lemma Prepend3<T>(x: T, y: T, z: T, rest: seq<T>)
    ensures [x] + ([y] + ([z] + rest)) == [x, y, z] + rest
  {
    assert [x, y, z] + rest == [x] + ([y] + ([z] + rest));
  }

  /** The dotted parts of a key. */
  lemma SplitDotted(a: string, b: string, h: string, name: string)
    requires '.' !in a && '.' !in b && '.' !in h
    ensures Split(DottedKey(a, b, h, name), '.') == [a, b, h] + Split(name, '.')
  {
    var r2 := h + ['.'] + name;
    var r1 := b + ['.'] + r2;
    var rest := Split(name, '.');
    SplitCons(a, '.', r1);
    SplitCons(b, '.', r2);
    SplitCons(h, '.', name);
    Prepend3(a, b, h, rest);
  }

  /** `_parse_pb` on a key without '=' that has at least three dotted
      parts, followed by a value that parses. */
  lemma ParsePbKey(key: string, v: string, x: real)
    requires '=' !in key && |Split(key, '.')| >= 3
    requires ParseDecimal(v) == Some(x)
    ensures var parts := Split(key, '.');
      ParsePb(key + "=" + v) == PbParsed(parts[2], ReplaceAll(Join(parts[3..], "."), "\\ ", " "), x)
  {
    var line := key + "=" + v;
    IndexOfAfterFree(key, '=', v);
    assert line[..|key|] == key;
    assert line[|key| + 1..] == v;
  }

  /** The dotted key has no '=', its third part is the account and the
      rest are the parts of the name. */
  lemma DottedKeyParts(a: string, b: string, h: string, name: string)
    requires '.' !in a && '=' !in a && '.' !in b && '=' !in b
    requires '.' !in h && '=' !in h && '=' !in name
    ensures var parts := Split(DottedKey(a, b, h, name), '.');
      '=' !in DottedKey(a, b, h, name) && |parts| >= 3 && parts[2] == h && parts[3..] == Split(name, '.')
  {
    var r2 := h + ['.'] + name;
    var r1 := b + ['.'] + r2;
    assert '=' !in r2;
    assert '=' !in r1;
    assert DottedKey(a, b, h, name) == a + ['.'] + r1;
    SplitDotted(a, b, h, name);
  }

  /** Rejoining the dotted parts of a name without `\` restores it. */
  lemma RejoinName(name: string)
    requires '\\' !in name
    ensures ReplaceAll(Join(Split(name, '.'), "."), "\\ ", " ") == name
  {
    JoinSplit(name, '.');
    ReplaceAllAbsent(name, "\\ ", " ");
  }

  lemma ParseDotted(a: string, b: string, h: string, name: string, v: string)
    requires '.' !in a && '=' !in a && '.' !in b && '=' !in b
    requires '.' !in h && '=' !in h
    requires '=' !in name && '\\' !in name
    requires ParseDecimal(v).Some?
    ensures ParsePb(DottedKey(a, b, h, name) + "=" + v) == PbParsed(h, name, ParseDecimal(v).value)
  {
    DottedKeyParts(a, b, h, name);
    ParsePbKey(DottedKey(a, b, h, name), v, ParseDecimal(v).value);
    RejoinName(name);
  }

  /** The rejected case of tests/profile_parser_test.py: a line without '='. */
  lemma ParsePbInvalid()
    ensures ParsePb("invalid string") == PbRejected
  {
    assert '=' !in "invalid string";
  }

  // ------------------------------------------------------- parse_profile

  /** What one raw line of the profile file contributes to the personal
      bests: only a stripped, non-ignored, non-declaration line that
      starts with `personalbest.rsprofile` is handed to `_parse_pb`. */
  function PbLineOf(raw: string): Option<PbParse>
  {
    var line := Strip(raw);
    if Ignored(line) || ClassifyDecl(line) != NoDecl then None
    else if StartsWith(line, "personalbest.rsprofile") then Some(ParsePb(line))
    else None
  }

  /** The bests recorded line by line: a parse with an empty (falsy)
      account is dropped. */
  function ProfileRecords(lines: seq<string>): (rs: seq<Option<(string, string, real)>>)
    ensures |rs| == |lines|
    ensures forall i :: 0 <= i < |lines| ==>
      rs[i] == match PbLineOf(lines[i])
               case Some(PbParsed(h, n, x)) => if h != [] then Some((h, n, x)) else None
               case _ => None
  {
    seq(|lines|, i requires 0 <= i < |lines| =>
      match PbLineOf(lines[i])
      case Some(PbParsed(h, n, x)) => if h != [] then Some((h, n, x)) else None
      case _ => None)
  }

  /** `profiles[display_names[h]] = value(h)` for every account `h`, in
      type-declaration order, whose type is `mode` and which has a
      display name. */
  function SelectByMode<V>(types: Assoc<string, string>, names: Assoc<string, string>, mode: string, value: string -> V): (profiles: Assoc<string, V>)
    ensures UniqueKeys(profiles)
  {
    if types == [] then []
    else
      var acc := SelectByMode(types[..|types| - 1], names, mode, value);
      var (h, t) := types[|types| - 1];
      if t == mode && Get(names, h).Some? then
        PutUnique(acc, Get(names, h).value, value(h));
        Put(acc, Get(names, h).value, value(h))
      else acc
  }

  /** Reference definition: the last account in `types` of game mode
      `mode` whose display name is `n`. */
  function LastSelected(types: Assoc<string, string>, names: Assoc<string, string>, mode: string, n: string): Option<string>
  {
    if types == [] then None
    else
      var (h, t) := types[|types| - 1];
      if t == mode && Get(names, h) == Some(n) then Some(h)
      else LastSelected(types[..|types| - 1], names, mode, n)
  }

  /** A display name maps to the value of the last account selected under it. */
  lemma {:induction false} SelectByModeLastWins<V>(types: Assoc<string, string>, names: Assoc<string, string>, mode: string, value: string -> V, n: string)
    ensures Get(SelectByMode(types, names, mode, value), n) ==
      match LastSelected(types, names, mode, n)
      case Some(h) => Some(value(h))
      case None => None
    decreases |types|
  {
    if types != [] {
      SelectByModeLastWins(types[..|types| - 1], names, mode, value, n);
    }
  }

  /** The last selected account is one of mode `mode` named `n`, and there
      is none exactly when no account of that mode carries that name. */
  lemma {:induction false} LastSelectedIs(types: Assoc<string, string>, names: Assoc<string, string>, mode: string, n: string)
    ensures LastSelected(types, names, mode, n).Some? ==>
      exists i :: 0 <= i < |types| && types[i].0 == LastSelected(types, names, mode, n).value && types[i].1 == mode
    ensures LastSelected(types, names, mode, n).Some? ==> Get(names, LastSelected(types, names, mode, n).value) == Some(n)
    ensures LastSelected(types, names, mode, n).None? <==>
      forall i :: 0 <= i < |types| && types[i].1 == mode ==> Get(names, types[i].0) != Some(n)
    decreases |types|
  {
    if types != [] {
      var init := types[..|types| - 1];
      LastSelectedIs(init, names, mode, n);
      assert forall i :: 0 <= i < |init| ==> init[i] == types[i];
    }
  }

  /** Why `parse_profile` fails: a personal-best line whose key has too few dots. */
  datatype ProfileError = KeyIndexError(line: nat)

  /** Whether `_parse_pb` raises on what a raw line hands it. */
  predicate RaisesIndexError(raw: string)
  {
    PbLineOf(raw) == Some(PbIndexError)
  }

  /** The first line for which `flagged` holds, or `|lines|` when none does. */
  function FirstFlagged(lines: seq<string>, flagged: string -> bool): (i: nat)
    ensures i <= |lines|
    ensures i < |lines| ==> flagged(lines[i])
    ensures forall j :: 0 <= j < i ==> !flagged(lines[j])
  {
    if lines == [] then 0
    else if flagged(lines[0]) then 0
    else 1 + FirstFlagged(lines[1..], flagged)
  }

  function FirstIndexError(lines: seq<string>): (i: nat)
    ensures i <= |lines|
    ensures i < |lines| ==> PbLineOf(lines[i]) == Some(PbIndexError)
    ensures forall j :: 0 <= j < i ==> PbLineOf(lines[j]) != Some(PbIndexError)
  {
    var i := FirstFlagged(lines, RaisesIndexError);
    assert forall j :: 0 <= j < i ==> !RaisesIndexError(lines[j]);
    i
  }

  /** `parse_profile(lines, game_mode)`: display name to that account's
      personal bests (boss name to seconds); an account without
      personal-best lines gets an empty dict. */
  function ParseProfile(lines: seq<string>, mode: string := "STANDARD"): (r: Result<Assoc<string, Assoc<string, real>>, ProfileError>)
    ensures r.Ok? ==> UniqueKeys(r.value)
  {
    var bad := FirstIndexError(lines);
    if bad < |lines| then Err(KeyIndexError(bad))
    else
      var d := Declare(lines, false);
      var pbs := FoldPbs(ProfileRecords(lines));
      Ok(SelectByMode(d.types, d.names, mode, h => GetOr(pbs, h, [])))
  }

  /** The exception propagates: the result is an error exactly when some
      personal-best line has a key with fewer than three dotted parts. */
  lemma ParseProfileFails(lines: seq<string>, mode: string)
    ensures ParseProfile(lines, mode).Err? <==> exists i :: 0 <= i < |lines| && PbLineOf(lines[i]) == Some(PbIndexError)
  {
  }

  /** Selection in terms of the lines: an account is selected under `n`
      exactly when some account's last declared type is `mode` and its last
      declared display name is `n`, and the selected one is such an account. */
  lemma SelectionByLines(lines: seq<string>, mode: string, n: string)
    ensures var d := Declare(lines, false);
      var sel := LastSelected(d.types, d.names, mode, n);
      && (sel.Some? <==>
           exists h :: LastDeclared(lines, h, false, true) == Some(mode) && LastDeclared(lines, h, false, false) == Some(n))
      && (sel.Some? ==>
           LastDeclared(lines, sel.value, false, true) == Some(mode) && LastDeclared(lines, sel.value, false, false) == Some(n))
  {
    var d := Declare(lines, false);
    SelectedByGets(d.types, d.names, mode, n);
    var sel := LastSelected(d.types, d.names, mode, n);
    if sel.Some? {
      DeclareLastWins(lines, sel.value, false);
    }
    if h :| LastDeclared(lines, h, false, true) == Some(mode) && LastDeclared(lines, h, false, false) == Some(n) {
      DeclareLastWins(lines, h, false);
    }
  }

  /** `LastSelected` in terms of lookups: an account is selected exactly
      when some account has the mode and the name, and the selected one
      does. */
  lemma SelectedByGets(types: Assoc<string, string>, names: Assoc<string, string>, mode: string, n: string)
    requires UniqueKeys(types)
    ensures var sel := LastSelected(types, names, mode, n);
      && (sel.Some? <==> exists h :: Get(types, h) == Some(mode) && Get(names, h) == Some(n))
      && (sel.Some? ==> Get(types, sel.value) == Some(mode) && Get(names, sel.value) == Some(n))
  {
    LastSelectedIs(types, names, mode, n);
    var sel := LastSelected(types, names, mode, n);
    if sel.Some? {
      var i :| 0 <= i < |types| && types[i].0 == sel.value && types[i].1 == mode;
      GetAt(types, i);
    }
    if h :| Get(types, h) == Some(mode) && Get(names, h) == Some(n) {
      GetIn(types, h);
      var i :| 0 <= i < |types| && types[i] == (h, mode);
      assert types[i].1 == mode && Get(names, types[i].0) == Some(n);
    }
  }

  /** The display names of the result are exactly those of the accounts
      whose last declared type is `mode`. */
  lemma ParseProfileKeys(lines: seq<string>, mode: string, n: string)
    requires ParseProfile(lines, mode).Ok?
    ensures n in Keys(ParseProfile(lines, mode).value) <==>
      exists h :: LastDeclared(lines, h, false, true) == Some(mode) && LastDeclared(lines, h, false, false) == Some(n)
  {
    var d := Declare(lines, false);
    var pbs := FoldPbs(ProfileRecords(lines));
    SelectByModeLastWins(d.types, d.names, mode, h => GetOr(pbs, h, []), n);
    SelectionByLines(lines, mode, n);
  }

  /** Each display name carries the personal bests of the last account of
      that mode and name in type-declaration order, where the last line for
      a boss wins (and an account without such lines has none). */
  lemma ParseProfileValues(lines: seq<string>, mode: string, n: string, b: string)
    requires ParseProfile(lines, mode).Ok?
    requires n in Keys(ParseProfile(lines, mode).value)
    ensures var d := Declare(lines, false);
      var sel := LastSelected(d.types, d.names, mode, n);
      && sel.Some?
      && Get(GetOr(ParseProfile(lines, mode).value, n, []), b) == LastPb(ProfileRecords(lines), sel.value, b)
  {
    var d := Declare(lines, false);
    var pbs := FoldPbs(ProfileRecords(lines));
    SelectByModeLastWins(d.types, d.names, mode, h => GetOr(pbs, h, []), n);
    var sel := LastSelected(d.types, d.names, mode, n);
    FoldPbsLastWins(ProfileRecords(lines), sel.value, b);
  }

  // ------------------------------------------------- lookup_user_profile

  /** Why `lookup_user_profile` fails: no STANDARD account has that name. */
  datatype LookupError = UnknownUser(username: string)

  /** `lookup_user_profile(username)` over the lines of the profile file. */
  function LookupUserProfile(lines: seq<string>, username: string): (r: Result<string, LookupError>)
  {
    var d := Declare(lines, false);
    match Get(SelectByMode(d.types, d.names, "STANDARD", h => h), username)
    case Some(h) => Ok(h)
    case None => Err(UnknownUser(username))
  }

  /** The hash returned is that of a STANDARD account with the display
      name, the last such in type-declaration order; the lookup fails
      exactly when there is none. */
  lemma LookupUserProfileResult(lines: seq<string>, username: string)
    ensures var d := Declare(lines, false);
      && (LookupUserProfile(lines, username).Ok? ==>
           LastSelected(d.types, d.names, "STANDARD", username) == Some(LookupUserProfile(lines, username).value))
      && (LookupUserProfile(lines, username).Err? <==>
           forall h :: LastDeclared(lines, h, false, true) == Some("STANDARD") ==> LastDeclared(lines, h, false, false) != Some(username))
  {
    var d := Declare(lines, false);
    SelectByModeLastWins(d.types, d.names, "STANDARD", h => h, username);
    SelectionByLines(lines, "STANDARD", username);
  }
}
