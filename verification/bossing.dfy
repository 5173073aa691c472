/**
 The boss statistics export of bot.py: a zip archive whose
 `bossing-info/<Boss>.txt` files hold lines `"<int> <label>"`, of which
 the `Fastest Kill` line gives the personal best. The archive is taken as
 its already extracted (path, text) pairs.
 */
module Bossing {
  import opened Wrappers
  import opened Text
  import opened Assoc
  import opened Numbers
  import opened Records

  /** The statistic one line states: the stripped line split at its first
      space into an integer and a label; blank lines, lines without a space
      and lines whose first token is not an integer state nothing. */
  function StatOf(raw: string): Option<(string, int)>
  {
    var line := Strip(raw);
    if line == [] then None
    else
      var sp := IndexOf(line, ' ');
      if sp == |line| then None else StatOfParts(line[..sp], line[sp + 1..])
  }

  /** The statistic of a line split at its first space into the token
      `num` and the text `rest` after the space. */
  function StatOfParts(num: string, rest: string): Option<(string, int)>
  {
    match ParseInt(num)
    case None => None
    case Some(n) => Some((Strip(rest), n))
  }

  /** Blank lines, lines without a space and lines whose first token is
      not an integer are skipped; every other line states a stripped label. */
  lemma StatOfSkips(raw: string)
    ensures var line := Strip(raw);
      StatOf(raw).Some? <==> line != [] && ' ' in line && ParseInt(line[..IndexOf(line, ' ')]).Some?
    ensures StatOf(raw).Some? ==> Trimmed(StatOf(raw).value.0)
  {
  }

  /** The line a statistic is written as. */
  function StatText(n: int, stat: string): string
  {
    IntToString(n) + " " + stat
  }

  /** Every statistic line is read back, label and value: the label may
      hold spaces inside, but none at its ends. */
  lemma StatOfText(n: int, stat: string)
    requires stat != [] && Trimmed(stat)
    ensures StatOf(StatText(n, stat)) == Some((stat, n))
  {
    var line, num := StatText(n, stat), IntToString(n);
    var rest := line[|num| + 1..];
    assert StatOf(line) == StatOfParts(num, rest) by {
      StatLineFacts(line, num, stat);
      StatOfStripped(line, |num|);
    }
    assert StatOfParts(num, rest) == Some((stat, n)) by {
      ParseIntShow(n);
      StatLineFacts(line, num, stat);
      StatOfPartsIs(num, rest, stat, n);
    }
  }

  /** The pieces of a line `num + " " + stat` as `StatOf` sees them. */
  lemma StatLineFacts(line: string, num: string, stat: string)
    requires num != [] && NoSpace(num)
    requires stat != [] && Trimmed(stat)
    requires line == num + " " + stat
    ensures line != [] && Strip(line) == line && IndexOf(line, ' ') == |num| && |num| < |line|
    ensures line[..|num|] == num && Strip(line[|num| + 1..]) == stat
  {
    StatLineTrimmed(num, stat);
    StatLineSpace(num, stat);
    StripAfter(line, num, stat);
  }

  lemma StripAfter(line: string, num: string, stat: string)
    requires Trimmed(stat)
    requires line == num + " " + stat
    ensures Strip(line[|num| + 1..]) == stat
  {
    assert line[|num| + 1..] == stat;
  }

  lemma StatOfStripped(line: string, sp: nat)
    requires line != [] && Strip(line) == line && IndexOf(line, ' ') == sp < |line|
    ensures StatOf(line) == StatOfParts(line[..sp], line[sp + 1..])
  {
  }

  lemma StatOfPartsIs(num: string, rest: string, stat: string, n: int)
    requires ParseInt(num) == Some(n) && Strip(rest) == stat
    ensures StatOfParts(num, rest) == Some((stat, n))
  {
  }

  lemma StatLineTrimmed(num: string, stat: string)
    requires num != [] && NoSpace(num)
    requires stat != [] && Trimmed(stat)
    ensures Strip(num + " " + stat) == num + " " + stat
  {
    var line := num + " " + stat;
    assert line[0] == num[0] && line[|line| - 1] == stat[|stat| - 1];
  }

  lemma StatLineSpace(num: string, stat: string)
    requires NoSpace(num)
    ensures var line := num + " " + stat;
      IndexOf(line, ' ') == |num| && line[..|num|] == num && line[|num| + 1..] == stat
  {
    var line := num + " " + stat;
    assert ' ' !in num by {
      assert forall i :: 0 <= i < |num| ==> !IsSpace(num[i]);
    }
    IndexOfAfterFree(num, ' ', stat);
    assert line[..|num|] == num;
    assert line[|num| + 1..] == stat;
  }

  /** The statistics of each line, in order. */
  function StatRecords(lines: seq<string>): (rs: seq<Option<(string, int)>>)
    ensures |rs| == |lines|
    ensures forall i :: 0 <= i < |lines| ==> rs[i] == StatOf(lines[i])
  {
    seq(|lines|, i requires 0 <= i < |lines| => StatOf(lines[i]))
  }

  /** `parse_boss_txt(txt)`: label to value, a later line overwriting an
      earlier one with the same label. */
  function ParseBossTxt(txt: string): (stats: Assoc<string, int>)
    ensures UniqueKeys(stats)
  {
    PutAll(StatRecords(SplitLines(txt)))
  }

  /** A label maps to the value of its last line. */
  lemma ParseBossTxtLastWins(txt: string, stat: string)
    ensures Get(ParseBossTxt(txt), stat) == LastFor(StatRecords(SplitLines(txt)), stat)
  {
    PutAllLastWins(StatRecords(SplitLines(txt)), stat);
  }

  /** A file written as statistic lines with distinct labels is read back. */
  lemma ParseBossTxtOfLines(lines: seq<string>, stats: seq<(string, int)>, k: nat)
    requires |lines| == |stats| && k < |stats|
    requires forall i :: 0 <= i < |stats| ==> stats[i].0 != [] && Trimmed(stats[i].0)
    requires forall i :: 0 <= i < |stats| ==> lines[i] == StatText(stats[i].1, stats[i].0)
    requires forall i :: 0 <= i < |stats| ==> NoLineBreak(lines[i])
    requires forall i, j :: 0 <= i < j < |stats| ==> stats[i].0 != stats[j].0
    ensures Get(ParseBossTxt(JoinLines(lines)), stats[k].0) == Some(stats[k].1)
  {
    SplitJoinLines(lines);
    var rs := StatRecords(lines);
    forall i | 0 <= i < |stats| ensures rs[i] == Some(stats[i]) {
      StatOfText(stats[i].1, stats[i].0);
    }
    LastForDistinct(rs, stats, k);
    PutAllLastWins(rs, stats[k].0);
  }

  lemma {:induction false} LastForDistinct(rs: seq<Option<(string, int)>>, stats: seq<(string, int)>, k: nat)
    requires |rs| == |stats| && k < |stats|
    requires forall i :: 0 <= i < |stats| ==> rs[i] == Some(stats[i])
    requires forall i, j :: 0 <= i < j < |stats| ==> stats[i].0 != stats[j].0
    ensures LastFor(rs, stats[k].0) == Some(stats[k].1)
    decreases |rs|
  {
    if k < |rs| - 1 {
      LastForDistinct(rs[..|rs| - 1], stats[..|stats| - 1], k);
    }
  }

  // ------------------------------------------------------ zip selection

  /** One file of the archive: its path and its decoded text. */
  datatype ZipEntry = ZipEntry(path: string, text: string)

  /** Whether a path is a statistics file: lower-cased, it is under
      `bossing-info/` and ends in `.txt`. */
  predicate InBossingInfo(path: string) {
    StartsWith(Lower(path), "bossing-info/") && EndsWith(Lower(path), ".txt")
  }

  /** The boss a statistics file is about: its base name with every
      (case-sensitive) `.txt` removed. */
  function BossNameOf(path: string): (name: string)
    ensures '/' !in name
  {
    var base := Basename(path);
    ReplaceAllNoNew(base, ".txt", "", '/');
    ReplaceAll(base, ".txt", "")
  }

  /** Replacing never brings in a character that neither the text nor the
      replacement holds. */
  lemma {:induction false} ReplaceAllNoNew(s: string, pat: string, rep: string, c: char)
    requires pat != [] && c !in s && c !in rep
    ensures c !in ReplaceAll(s, pat, rep)
    decreases |s|
  {
    if |s| >= |pat| {
      if s[..|pat|] == pat {
        ReplaceAllNoNew(s[|pat|..], pat, rep, c);
      } else {
        ReplaceAllNoNew(s[1..], pat, rep, c);
      }
    }
  }

  /** `bossing-info/<name>.txt`, for a name without "/" or ".", is a
      statistics file about `name`. */
  lemma BossFileNamed(name: string)
    requires '/' !in name && '.' !in name
    ensures InBossingInfo("bossing-info/" + name + ".txt")
    ensures BossNameOf("bossing-info/" + name + ".txt") == name
  {
    BossFileLower(name);
    BossFileBase(name);
    ReplaceAllTail(name, ".txt", "");
  }

  lemma BossFileLower(name: string)
    ensures InBossingInfo("bossing-info/" + name + ".txt")
  {
    var low := Lower("bossing-info/" + name + ".txt");
    LowerAppend("bossing-info/" + name, ".txt");
    LowerAppend("bossing-info/", name);
    assert Lower("bossing-info/") == "bossing-info/";
    assert Lower(".txt") == ".txt";
    assert low == "bossing-info/" + Lower(name) + ".txt";
    assert low[..13] == "bossing-info/";
    assert low[|low| - 4..] == ".txt";
  }

  lemma BossFileBase(name: string)
    requires '/' !in name
    ensures Basename("bossing-info/" + name + ".txt") == name + ".txt"
  {
    assert "bossing-info/" + name + ".txt" == "bossing-info/" + (name + ".txt");
    BasenameAfter("bossing-info/", name + ".txt");
  }

  /** The stat whose value is the personal best. */
  const FastestKill: string := "Fastest Kill"

  /** The entry one file contributes, if any. */
  function EntryOf(z: ZipEntry): Option<BossTime>
  {
    if !InBossingInfo(z.path) then None
    else
      match Get(ParseBossTxt(z.text), FastestKill)
      case Some(f) => Some(BossTime(BossNameOf(z.path), f))
      case None => None
  }

  /** The loop over the archive's names: the batch of personal bests. */
  function SelectBossEntries(files: seq<ZipEntry>): (batch: seq<BossTime>)
    ensures |batch| <= |files|
  {
    FilterMap(files, EntryOf)
  }

  /** The entry one file contributes, spelled out. */
  lemma EntryOfIs(z: ZipEntry, e: BossTime)
    ensures EntryOf(z) == Some(e) <==>
      InBossingInfo(z.path) && BossNameOf(z.path) == e.boss && Get(ParseBossTxt(z.text), FastestKill) == Some(e.fastest)
  {
  }

  /** The batch is built file by file in archive order: the first file's
      entry, if it has one, comes before those of the rest. */
  lemma {:induction false} SelectBossEntriesCons(z: ZipEntry, files: seq<ZipEntry>)
    ensures SelectBossEntries([z] + files) ==
      (if EntryOf(z).Some? then [EntryOf(z).value] else []) + SelectBossEntries(files)
  {
    assert ([z] + files)[0] == z;
    assert ([z] + files)[1..] == files;
  }

  /** The batch holds an entry exactly for each statistics file with a
      `Fastest Kill` line, named after the file and timed by that line. */
  lemma SelectBossEntriesMembers(files: seq<ZipEntry>, e: BossTime)
    ensures e in SelectBossEntries(files) <==>
      exists i :: 0 <= i < |files| && InBossingInfo(files[i].path)
        && BossNameOf(files[i].path) == e.boss && Get(ParseBossTxt(files[i].text), FastestKill) == Some(e.fastest)
  {
    forall i | 0 <= i < |files| {
      EntryOfIs(files[i], e);
    }
    if e in SelectBossEntries(files) {
      var i := FilterMapSound(files, EntryOf, e);
    }
    if i :| 0 <= i < |files| && EntryOf(files[i]) == Some(e) {
      FilterMapComplete(files, EntryOf, i);
    }
  }

  /** Files outside `bossing-info/`, or not ending in `.txt`, contribute nothing. */
  lemma SelectBossEntriesSkips(files: seq<ZipEntry>, z: ZipEntry)
    requires !InBossingInfo(z.path) || Get(ParseBossTxt(z.text), FastestKill).None?
    ensures SelectBossEntries(files + [z]) == SelectBossEntries(files)
    ensures SelectBossEntries([z] + files) == SelectBossEntries(files)
  {
    FilterMapSkip(files, EntryOf, z);
  }
}
