/**
 The line shapes of a RuneLite profile properties file, as the three
 readers of the repository match them with anchored regular expressions:

   rsprofile.rsprofile.<id>.type=<value>
   rsprofile.rsprofile.<id>.displayName=<value>
   personalbest.rsprofile.<id>.<boss>=<value>

 `<id>` is `\w+`, taken here as ASCII letters, digits and underscore. Each
 pattern ends in `(.+)$`: at least one character other than a line feed,
 where `$` also matches just before one final line feed. Also here: the
 fold of the declaration lines into per-account type and display-name
 dicts, shared by all three readers.
 */
module Patterns {
  import opened Wrappers
  import opened Text
  import opened Assoc

  // -------------------------------------------------------------- pieces

  /** The text `(.+)$` captures from the rest `s` of a line. */
  function LineBody(s: string): (body: Option<string>)
    ensures body.Some? ==> body.value != [] && '\n' !in body.value
    ensures body.Some? ==> s == body.value || s == body.value + "\n"
  {
    if s != [] && '\n' !in s then Some(s)
    else if |s| >= 2 && s[|s| - 1] == '\n' && '\n' !in s[..|s| - 1] then Some(s[..|s| - 1])
    else None
  }

  /** Both shapes `(.+)$` accepts, so `LineBody` fails exactly on the others. */
  lemma LineBodyAccepts(v: string)
    requires v != [] && '\n' !in v
    ensures LineBody(v) == Some(v)
    ensures LineBody(v + "\n") == Some(v)
  {
    assert (v + "\n")[..|v|] == v;
  }

  /** The length of the run of word characters at the start of `s`. */
  function WordLen(s: string): (n: nat)
    ensures n <= |s|
    ensures forall i :: 0 <= i < n ==> IsWordChar(s[i])
    ensures n < |s| ==> !IsWordChar(s[n])
  {
    if s != [] && IsWordChar(s[0]) then 1 + WordLen(s[1..]) else 0
  }

  /** A string `\w+` matches as a whole. */
  predicate IsId(s: string) {
    s != [] && forall i :: 0 <= i < |s| ==> IsWordChar(s[i])
  }

  lemma WordLenOfId(id: string, rest: string)
    requires IsId(id)
    requires rest == [] || !IsWordChar(rest[0])
    ensures WordLen(id + rest) == |id|
  {
    var s := id + rest;
    var n := WordLen(s);
    AppendAt(id, rest, n);
    AppendAt(id, rest, |id|);
  }

  // -------------------------------------------------------- declarations

  const DeclPrefix: string := "rsprofile.rsprofile."

  /** The line that declares `field` of account `id` to be `value`. */
  function DeclLine(id: string, field: string, value: string): string
  {
    DeclPrefix + id + "." + field + "=" + value
  }

  /** `^<prefix>(\w+)<tag>(.+)$` for literal `prefix` and `tag`: the
      captured id and rest. A match means the line is exactly those pieces. */
  function MatchIdTag(line: string, prefix: string, tag: string): (m: Option<(string, string)>)
    ensures m.Some? ==> IsId(m.value.0) && m.value.1 != [] && '\n' !in m.value.1
    ensures m.Some? ==>
      line == prefix + m.value.0 + tag + m.value.1 || line == prefix + m.value.0 + tag + m.value.1 + "\n"
  {
    if !StartsWith(line, prefix) then None
    else
      var rest := line[|prefix|..];
      var n := WordLen(rest);
      if n == 0 || !StartsWith(rest[n..], tag) then None
      else
        match LineBody(rest[n..][|tag|..])
        case None => None
        case Some(v) =>
          ReassembleLine(line, prefix, rest[..n], tag, rest[n..][|tag|..], v);
          Some((rest[..n], v))
  }

  lemma Reassemble(line: string, prefix: string, id: string, tag: string, body: string)
    requires StartsWith(line, prefix) && |id| <= |line| - |prefix|
    requires id == line[|prefix|..][..|id|]
    requires StartsWith(line[|prefix|..][|id|..], tag)
    requires body == line[|prefix|..][|id|..][|tag|..]
    ensures line == prefix + id + tag + body
  {
    var rest := line[|prefix|..];
    assert line == prefix + rest;
    assert rest == id + rest[|id|..];
    assert rest[|id|..] == tag + body;
  }

  /** `Reassemble` for a body that is a line `v` with or without its "\n". */
  lemma ReassembleLine(line: string, prefix: string, id: string, tag: string, body: string, v: string)
    requires StartsWith(line, prefix) && |id| <= |line| - |prefix|
    requires id == line[|prefix|..][..|id|]
    requires StartsWith(line[|prefix|..][|id|..], tag)
    requires body == line[|prefix|..][|id|..][|tag|..]
    requires body == v || body == v + "\n"
    ensures line == prefix + id + tag + v || line == prefix + id + tag + v + "\n"
  {
    Reassemble(line, prefix, id, tag, body);
    assert prefix + id + tag + (v + "\n") == prefix + id + tag + v + "\n";
  }

  lemma MatchIdTagOf(prefix: string, id: string, tag: string, value: string)
    requires IsId(id) && value != [] && '\n' !in value
    requires tag != [] && !IsWordChar(tag[0])
    ensures MatchIdTag(prefix + id + tag + value, prefix, tag) == Some((id, value))
  {
    var line := prefix + id + tag + value;
    assert line == prefix + (id + (tag + value));
    var rest := line[|prefix|..];
    assert rest == id + (tag + value);
    WordLenOfId(id, tag + value);
    assert rest[..|id|] == id;
    assert rest[|id|..] == tag + value;
    assert (tag + value)[|tag|..] == value;
    LineBodyAccepts(value);
  }

  /** `^rsprofile\.rsprofile\.(\w+)\.<field>=(.+)$`: the captured id and
      value. A match means the line is the declaration of those two. */
  function MatchDecl(line: string, field: string): (m: Option<(string, string)>)
    ensures m.Some? ==> IsId(m.value.0) && m.value.1 != [] && '\n' !in m.value.1
    ensures m.Some? ==>
      line == DeclLine(m.value.0, field, m.value.1) || line == DeclLine(m.value.0, field, m.value.1) + "\n"
  {
    var m := MatchIdTag(line, DeclPrefix, "." + field + "=");
    if m.Some? then
      DeclLineShape(m.value.0, field, m.value.1);
      m
    else m
  }

  lemma DeclLineShape(id: string, field: string, value: string)
    ensures DeclLine(id, field, value) == DeclPrefix + id + ("." + field + "=") + value
  {
  }

  /** Every declaration line is recognised, with its id and value. */
  lemma MatchDeclLine(id: string, field: string, value: string)
    requires IsId(id) && value != [] && '\n' !in value
    ensures MatchDecl(DeclLine(id, field, value), field) == Some((id, value))
  {
    DeclLineShape(id, field, value);
    MatchIdTagOf(DeclPrefix, id, "." + field + "=", value);
  }

  /** A stripped line as one of the two declaration kinds, type first. */
  datatype Decl = TypeDecl(id: string, value: string) | NameDecl(id: string, value: string) | NoDecl

  function ClassifyDecl(line: string): Decl
  {
    match MatchDecl(line, "type")
    case Some(m) => TypeDecl(m.0, m.1)
    case None =>
      match MatchDecl(line, "displayName")
      case Some(m) => NameDecl(m.0, m.1)
      case None => NoDecl
  }

  /** Blank lines and `#` comments, once stripped. */
  predicate Ignored(line: string) {
    line == [] || line[0] == '#'
  }

  /** The per-account dicts `types` and `display_names`. */
  datatype Declarations = Declarations(types: Assoc<string, string>, names: Assoc<string, string>)

  /** What one raw line declares: the stripped line, unless it is ignored.
      `trim` strips the declared value as well (only src/bot.py does). */
  function DeclOf(raw: string, trim: bool): Decl
  {
    var line := Strip(raw);
    if Ignored(line) then NoDecl
    else
      match ClassifyDecl(line)
      case TypeDecl(h, t) => TypeDecl(h, if trim then Strip(t) else t)
      case NameDecl(h, n) => NameDecl(h, if trim then Strip(n) else n)
      case NoDecl => NoDecl
  }

  /** The loop over the lines, as far as it concerns declarations: a later
      declaration for the same id overwrites an earlier one. */
  function Declare(lines: seq<string>, trim: bool): (d: Declarations)
    ensures UniqueKeys(d.types) && UniqueKeys(d.names)
  {
    if lines == [] then Declarations([], [])
    else
      var d := Declare(lines[..|lines| - 1], trim);
      match DeclOf(lines[|lines| - 1], trim)
      case TypeDecl(h, t) =>
        PutUnique(d.types, h, t);
        d.(types := Put(d.types, h, t))
      case NameDecl(h, n) =>
        PutUnique(d.names, h, n);
        d.(names := Put(d.names, h, n))
      case NoDecl => d
  }

  /** Reference definition: the value of the last type (or display-name)
      declaration of `id` among `lines`. */
  function LastDeclared(lines: seq<string>, id: string, trim: bool, isType: bool): Option<string>
  {
    if lines == [] then None
    else
      match DeclOf(lines[|lines| - 1], trim)
      case TypeDecl(h, t) =>
        if isType && h == id then Some(t) else LastDeclared(lines[..|lines| - 1], id, trim, isType)
      case NameDecl(h, n) =>
        if !isType && h == id then Some(n) else LastDeclared(lines[..|lines| - 1], id, trim, isType)
      case NoDecl => LastDeclared(lines[..|lines| - 1], id, trim, isType)
  }

  /** Last write wins: the dicts hold the last declared type and display
      name of every account, and nothing for an undeclared one. */
  lemma {:induction false} DeclareLastWins(lines: seq<string>, id: string, trim: bool)
    ensures Get(Declare(lines, trim).types, id) == LastDeclared(lines, id, trim, true)
    ensures Get(Declare(lines, trim).names, id) == LastDeclared(lines, id, trim, false)
    decreases |lines|
  {
    if lines != [] {
      DeclareLastWins(lines[..|lines| - 1], id, trim);
    }
  }

  /** The ids of the type declarations among `lines`, in order. */
  function TypeIds(lines: seq<string>, trim: bool): seq<string>
  {
    if lines == [] then []
    else
      var ids := TypeIds(lines[..|lines| - 1], trim);
      match DeclOf(lines[|lines| - 1], trim)
      case TypeDecl(h, _) => ids + [h]
      case _ => ids
  }

  /** Each element at its first occurrence. */
  function FirstOccurrences(s: seq<string>): seq<string>
  {
    if s == [] then []
    else
      var f := FirstOccurrences(s[..|s| - 1]);
      if s[|s| - 1] in f then f else f + [s[|s| - 1]]
  }

  /** The first element of a non-empty sequence occurs first. */
  lemma {:induction false} FirstOccurrencesHead(s: seq<string>)
    ensures s == [] <==> FirstOccurrences(s) == []
    ensures s != [] ==> FirstOccurrences(s)[0] == s[0]
    decreases |s|
  {
    if s != [] {
      var p := s[..|s| - 1];
      FirstOccurrencesHead(p);
      if p != [] {
        assert p[0] == s[0];
      }
    }
  }

  /** The accounts of `types` are in the order of their first type line. */
  lemma {:induction false} DeclareTypeOrder(lines: seq<string>, trim: bool)
    ensures Keys(Declare(lines, trim).types) == FirstOccurrences(TypeIds(lines, trim))
    decreases |lines|
  {
    if lines != [] {
      DeclareTypeOrder(lines[..|lines| - 1], trim);
    }
  }

  // ----------------------------------------------------- personal bests

  const PbPrefix: string := "personalbest.rsprofile."

  /** The line that records `value` as the personal best of account `id`
      at boss `boss`. */
  function PbLine(id: string, boss: string, value: string): string
  {
    PbPrefix + id + "." + boss + "=" + value
  }

  /** Whether `(.+)=(.+)$` can match `tail` with the '=' at index `j`. */
  predicate SplitsAt(tail: string, j: int) {
    1 <= j < |tail| && tail[j] == '=' && '\n' !in tail[..j] && LineBody(tail[j + 1..]).Some?
  }

  /** The greedy first group: the largest split point up to `k`. */
  function LastSplit(tail: string, k: int): (j: Option<nat>)
    ensures j.Some? ==> j.value <= k && SplitsAt(tail, j.value)
    ensures forall i :: (j.None? || j.value < i) && i <= k ==> !SplitsAt(tail, i)
    decreases k
  {
    if k < 1 then None
    else if SplitsAt(tail, k) then Some(k)
    else LastSplit(tail, k - 1)
  }

  /** `(.+)=(.+)$` on the part of a personal-best line after the id: the
      greedy split into boss label and value. */
  function SplitPb(tail: string): (m: Option<(string, string)>)
    ensures m.Some? ==> m.value.0 != [] && '\n' !in m.value.0 && m.value.1 != [] && '\n' !in m.value.1
    ensures m.Some? ==>
      tail == m.value.0 + "=" + m.value.1 || tail == m.value.0 + "=" + m.value.1 + "\n"
  {
    match LastSplit(tail, |tail| - 1)
    case None => None
    case Some(j) =>
      var v := LineBody(tail[j + 1..]).value;
      SplitShape(tail, j, v);
      Some((tail[..j], v))
  }

  /** A string split at an '=' at `j`, the rest being `v` with at most one
      final newline. */
  lemma SplitShape(tail: string, j: nat, v: string)
    requires j < |tail| && tail[j] == '='
    requires tail[j + 1..] == v || tail[j + 1..] == v + "\n"
    ensures tail == tail[..j] + "=" + v || tail == tail[..j] + "=" + v + "\n"
  {
    assert tail == tail[..j] + "=" + tail[j + 1..];
    if tail[j + 1..] == v + "\n" {
      assert tail[..j] + "=" + (v + "\n") == tail[..j] + "=" + v + "\n";
    }
  }

  /** `^personalbest\.rsprofile\.(\w+)\.(.+)=(.+)$`: the captured id, boss
      label and value. A match means the line is the record of those three. */
  function MatchPb(line: string): (m: Option<(string, string, string)>)
    ensures m.Some? ==> IsId(m.value.0) && m.value.1 != [] && '\n' !in m.value.1
    ensures m.Some? ==> m.value.2 != [] && '\n' !in m.value.2
    ensures m.Some? ==>
      line == PbLine(m.value.0, m.value.1, m.value.2) || line == PbLine(m.value.0, m.value.1, m.value.2) + "\n"
  {
    if !StartsWith(line, PbPrefix) then None
    else
      var rest := line[|PbPrefix|..];
      var n := WordLen(rest);
      if n == 0 || !StartsWith(rest[n..], ".") then None
      else
        var tail := rest[n..][1..];
        match SplitPb(tail)
        case None => None
        case Some((boss, v)) =>
          Reassemble(line, PbPrefix, rest[..n], ".", tail);
          PbLineShape(rest[..n], boss, v, tail);
          Some((rest[..n], boss, v))
  }

  lemma PbLineShape(id: string, boss: string, value: string, tail: string)
    ensures tail == boss + "=" + value ==> PbPrefix + id + "." + tail == PbLine(id, boss, value)
    ensures tail == boss + "=" + value + "\n" ==> PbPrefix + id + "." + tail == PbLine(id, boss, value) + "\n"
  {
  }

  /** The tail a personal-best line leaves after its id. */
  lemma PbTail(line: string)
    requires MatchPb(line).Some?
    ensures StartsWith(line, PbPrefix)
    ensures var rest := line[|PbPrefix|..];
      var n := WordLen(rest);
      0 < n < |rest| && SplitPb(rest[n..][1..]) == Some((MatchPb(line).value.1, MatchPb(line).value.2))
  {
  }

  /** The split is at the last '=' that leaves a value behind: a value
      holds '=' at most as its final character. */
  lemma SplitPbGreedy(tail: string)
    requires SplitPb(tail).Some?
    ensures var v := SplitPb(tail).value.1; '=' !in v[..|v| - 1]
  {
    var j := LastSplit(tail, |tail| - 1).value;
    var boss := tail[..j];
    var v := SplitPb(tail).value.1;
    if i :| 0 <= i < |v| - 1 && v[i] == '=' {
      LaterSplit(tail, boss, v, i);
      assert false;
    }
  }

  /** A '=' inside the value would be a later split point. */
  lemma LaterSplit(tail: string, boss: string, v: string, i: int)
    requires '\n' !in boss && '\n' !in v
    requires tail == boss + "=" + v || tail == boss + "=" + v + "\n"
    requires 0 <= i < |v| - 1 && v[i] == '='
    ensures SplitsAt(tail, |boss| + 1 + i)
  {
    var j' := |boss| + 1 + i;
    assert tail[j'] == '=';
    assert tail[..j'] == boss + "=" + v[..i];
    assert tail[j' + 1..] == v[i + 1..] || tail[j' + 1..] == v[i + 1..] + "\n";
    LineBodyAccepts(v[i + 1..]);
  }

  lemma MatchPbGreedy(line: string)
    requires MatchPb(line).Some?
    ensures var v := MatchPb(line).value.2; '=' !in v[..|v| - 1]
  {
    PbTail(line);
    var rest := line[|PbPrefix|..];
    SplitPbGreedy(rest[WordLen(rest)..][1..]);
  }

  lemma SplitPbOf(boss: string, value: string)
    requires boss != [] && '\n' !in boss
    requires value != [] && '\n' !in value && '=' !in value
    ensures SplitPb(boss + "=" + value) == Some((boss, value))
  {
    var tail := boss + "=" + value;
    var j := |boss|;
    assert tail[..j] == boss && tail[j + 1..] == value;
    LineBodyAccepts(value);
    assert SplitsAt(tail, j);
    forall i | j < i < |tail| ensures !SplitsAt(tail, i) {
      assert tail[i] == value[i - j - 1];
    }
    LastSplitFinds(tail, |tail| - 1, j);
  }

  /** Every personal-best line whose value holds no '=' is recognised, with
      its id, boss label and value; the label itself may hold '=' and '.'. */
  lemma MatchPbLine(id: string, boss: string, value: string)
    requires IsId(id) && boss != [] && '\n' !in boss
    requires value != [] && '\n' !in value && '=' !in value
    ensures MatchPb(PbLine(id, boss, value)) == Some((id, boss, value))
  {
    var line := PbLine(id, boss, value);
    var tail := boss + "=" + value;
    assert line == PbPrefix + (id + ("." + tail));
    var rest := line[|PbPrefix|..];
    assert rest == id + ("." + tail);
    WordLenOfId(id, "." + tail);
    assert rest[..|id|] == id;
    assert rest[|id|..] == "." + tail;
    assert ("." + tail)[1..] == tail;
    SplitPbOf(boss, value);
  }

  lemma {:induction false} LastSplitFinds(tail: string, k: int, j: nat)
    requires j <= k && SplitsAt(tail, j)
    requires forall i :: j < i <= k ==> !SplitsAt(tail, i)
    ensures LastSplit(tail, k) == Some(j)
    decreases k
  {
    if k != j {
      LastSplitFinds(tail, k - 1, j);
    }
  }

  // -------------------------------------------------- the fold of bests

  /** `pbs.setdefault(hash_id, {})[boss] = value` over the recorded bests. */
  function FoldPbs<V>(rs: seq<Option<(string, string, V)>>): (pbs: Assoc<string, Assoc<string, V>>)
    ensures UniqueKeys(pbs)
  {
    if rs == [] then []
    else
      var pbs := FoldPbs(rs[..|rs| - 1]);
      match rs[|rs| - 1]
      case Some((h, b, v)) =>
        PutUnique(pbs, h, Put(GetOr(pbs, h, []), b, v));
        PutNested(pbs, h, b, v)
      case None => pbs
  }

  /** Reference definition: the value of the last record for account `h`
      and label `b`. */
  function LastPb<V>(rs: seq<Option<(string, string, V)>>, h: string, b: string): Option<V>
  {
    if rs == [] then None
    else
      match rs[|rs| - 1]
      case Some((h', b', v)) =>
        if h' == h && b' == b then Some(v) else LastPb(rs[..|rs| - 1], h, b)
      case None => LastPb(rs[..|rs| - 1], h, b)
  }

  /** Whether some record is for account `h`. */
  predicate HasPb<V>(rs: seq<Option<(string, string, V)>>, h: string) {
    exists i :: 0 <= i < |rs| && rs[i].Some? && rs[i].value.0 == h
  }

  /** The accounts of the PB records, one per record, in line order. */
  function PbIds<V>(rs: seq<Option<(string, string, V)>>): (ids: seq<string>)
    ensures |ids| <= |rs|
  {
    if rs == [] then []
    else
      var ids := PbIds(rs[..|rs| - 1]);
      match rs[|rs| - 1]
      case Some((h, _, _)) => ids + [h]
      case None => ids
  }

  /** The accounts of `pbs` are in the order of their first PB line. */
  lemma {:induction false} FoldPbsOrder<V>(rs: seq<Option<(string, string, V)>>)
    ensures Keys(FoldPbs(rs)) == FirstOccurrences(PbIds(rs))
    decreases |rs|
  {
    if rs != [] {
      FoldPbsOrder(rs[..|rs| - 1]);
    }
  }

  /** The first account of `pbs` is the account of the first PB line. */
  lemma FoldPbsFirst<V>(rs: seq<Option<(string, string, V)>>)
    requires FoldPbs(rs) != []
    ensures PbIds(rs) != [] && FoldPbs(rs)[0].0 == PbIds(rs)[0]
  {
    FoldPbsOrder(rs);
    FirstOccurrencesHead(PbIds(rs));
  }

  /** Last write wins, per account and label. */
  lemma {:induction false} FoldPbsLastWins<V>(rs: seq<Option<(string, string, V)>>, h: string, b: string)
    ensures Get(GetOr(FoldPbs(rs), h, []), b) == LastPb(rs, h, b)
    decreases |rs|
  {
    if rs != [] {
      FoldPbsLastWins(rs[..|rs| - 1], h, b);
    }
  }

  /** No account at all exactly when no line records one. */
  lemma FoldPbsEmpty<V>(rs: seq<Option<(string, string, V)>>)
    ensures FoldPbs(rs) == [] <==> forall i :: 0 <= i < |rs| ==> rs[i].None?
  {
    if FoldPbs(rs) != [] {
      FoldPbsKeys(rs, FoldPbs(rs)[0].0);
    }
    if i :| 0 <= i < |rs| && rs[i].Some? {
      FoldPbsKeys(rs, rs[i].value.0);
    }
  }

  /** A record for `h` is in the last place or before it. */
  lemma HasPbLast<V>(rs: seq<Option<(string, string, V)>>, h: string)
    requires rs != []
    ensures HasPb(rs, h) <==>
      HasPb(rs[..|rs| - 1], h) || (rs[|rs| - 1].Some? && rs[|rs| - 1].value.0 == h)
  {
    var init := rs[..|rs| - 1];
    if HasPb(rs, h) {
      var i :| 0 <= i < |rs| && rs[i].Some? && rs[i].value.0 == h;
      if i < |init| {
        assert init[i] == rs[i];
      }
    }
    if HasPb(init, h) {
      var i :| 0 <= i < |init| && init[i].Some? && init[i].value.0 == h;
      assert init[i] == rs[i];
    }
  }

  /** An account is a key exactly when some record is for it. */
  lemma {:induction false} FoldPbsKeys<V>(rs: seq<Option<(string, string, V)>>, h: string)
    ensures h in Keys(FoldPbs(rs)) <==> HasPb(rs, h)
    decreases |rs|
  {
    if rs != [] {
      FoldPbsKeys(rs[..|rs| - 1], h);
      HasPbLast(rs, h);
    }
  }
}
