/**
 `update_best_times` of src/bot.py and bot.py: merge a batch of personal
 bests into the player's row of the sheet. Every decision compares the
 incoming time with the row as it was read before any write (the
 snapshot); a cell is written when it holds no integer or a larger one,
 and the number of such writes is returned.
 */
module Reconcile {
  import opened Wrappers
  import opened Text
  import opened Assoc
  import opened Numbers
  import opened Records
  import opened Sheet

  /** The exceptions `update_best_times` can end in. */
  datatype UpdateError =
    | EmptyRowAt(r: nat)        // bot.py: `values[r][0]` on an empty row
    | RowTooShort(colCount: nat) // `new_row[1]` with fewer than two headers
    | RowNotFound               // the appended row is not found again

  /** Whether a time replaces a cell: the cell holds no integer, or a
      larger one. */
  predicate Improves(cell: string, t: int) {
    match ParseInt(cell)
    case None => true
    case Some(prev) => t < prev
  }

  /** The column an entry writes, if any: its column in the header map,
      when the time improves on the snapshot's cell there. */
  function WriteColumn(snapshot: Row, headerMap: Assoc<string, nat>, e: BossTime): (c: Option<nat>)
    ensures c.Some? ==> Get(headerMap, BossKey(e)) == c && Improves(CellAt(snapshot, c.value), e.fastest)
    ensures c.None? ==> Get(headerMap, BossKey(e)).None? || !Improves(CellAt(snapshot, Get(headerMap, BossKey(e)).value), e.fastest)
  {
    match Get(headerMap, BossKey(e))
    case None => None
    case Some(col) => if Improves(CellAt(snapshot, col), e.fastest) then Some(col) else None
  }

  /** The loop over the batch: each improving entry writes its time into
      row `r` and counts one improvement. */
  function Merge(store: Store, r: nat, snapshot: Row, headerMap: Assoc<string, nat>, batch: seq<BossTime>): (res: (Store, nat))
    requires r < |store|
    ensures |res.0| == |store|
    ensures forall i :: 0 <= i < |store| && i != r ==> res.0[i] == store[i]
    ensures |res.0[r]| >= |store[r]|
    ensures res.1 <= |batch|
  {
    if batch == [] then (store, 0)
    else
      var (s, k) := Merge(store, r, snapshot, headerMap, batch[..|batch| - 1]);
      var e := batch[|batch| - 1];
      match WriteColumn(snapshot, headerMap, e)
      case Some(c) => (SetCell(s, r, c, IntToString(e.fastest)), k + 1)
      case None => (s, k)
  }

  /** Reference definition: the entries that improve their cell, in order. */
  function Writers(snapshot: Row, headerMap: Assoc<string, nat>, batch: seq<BossTime>): seq<BossTime>
  {
    if batch == [] then []
    else
      var w := Writers(snapshot, headerMap, batch[..|batch| - 1]);
      if WriteColumn(snapshot, headerMap, batch[|batch| - 1]).Some? then w + [batch[|batch| - 1]] else w
  }

  /** Reference definition: the time of the last entry that writes column `c`. */
  function LastWrite(snapshot: Row, headerMap: Assoc<string, nat>, batch: seq<BossTime>, c: nat): (t: Option<int>)
    ensures t.Some? ==> exists i :: 0 <= i < |batch| && WriteColumn(snapshot, headerMap, batch[i]) == Some(c) && batch[i].fastest == t.value
    ensures t.None? <==> forall i :: 0 <= i < |batch| ==> WriteColumn(snapshot, headerMap, batch[i]) != Some(c)
  {
    LastMap(batch, e => if WriteColumn(snapshot, headerMap, e) == Some(c) then Some(e.fastest) else None)
  }

  /** The count is the number of improving entries. */
  lemma {:induction false} MergeCount(store: Store, r: nat, snapshot: Row, headerMap: Assoc<string, nat>, batch: seq<BossTime>)
    requires r < |store|
    ensures Merge(store, r, snapshot, headerMap, batch).1 == |Writers(snapshot, headerMap, batch)|
    decreases |batch|
  {
    if batch != [] {
      MergeCount(store, r, snapshot, headerMap, batch[..|batch| - 1]);
    }
  }

  /** Each cell of the row ends with the time of the last entry that
      writes it, or keeps its content. */
  lemma {:induction false} MergeCells(store: Store, r: nat, snapshot: Row, headerMap: Assoc<string, nat>, batch: seq<BossTime>, c: nat)
    requires r < |store|
    ensures CellAt(Merge(store, r, snapshot, headerMap, batch).0[r], c) ==
      match LastWrite(snapshot, headerMap, batch, c)
      case Some(t) => IntToString(t)
      case None => CellAt(store[r], c)
    decreases |batch|
  {
    if batch != [] {
      MergeCells(store, r, snapshot, headerMap, batch[..|batch| - 1], c);
    }
  }

  // ---------------------------------------------------- the whole update

  /** The state before the loop: the sheet after the header write, the
      append and the username write; the player's row; the snapshot of
      that row; and the headers the header map is built from. */
  datatype Prepared = Prepared(store: Store, row: nat, snapshot: Row, columns: Row)

  /** `ensure_boss_columns` on the sheet's header row and the batch's labels. */
  function Ensure(store: Store, batch: seq<BossTime>): Ensured
  {
    EnsureBossColumns(BossNames(batch), Headers(store))
  }

  /** Everything of `update_best_times` before the loop. */
  function Prepare(bot: Bot, store: Store, id: string, username: string, batch: seq<BossTime>): (p: Result<Prepared, UpdateError>)
    ensures p.Ok? ==> 1 <= p.value.row < |p.value.store|
    ensures p.Ok? ==> forall j :: CellAt(p.value.store[p.value.row], j) == if j == 1 then username else CellAt(p.value.snapshot, j)
    ensures p.Ok? ==> Holds(p.value.snapshot, id) && |p.value.store[p.value.row]| >= |p.value.snapshot|
    ensures p.Ok? ==> |p.value.store[p.value.row]| > 1
  {
    var ens := Ensure(store, batch);
    var s1 := if ens.wrote then WriteHeaders(store, ens.headers) else store;
    match FindUserRow(bot, store, id)
    case EmptyRow(r) => Err(EmptyRowAt(r))
    case Found(r) =>
      assert s1[r] == store[r];
      Ok(Prepared(SetCell(s1, r, 1, username), r, store[r], ens.headers))
    case Missing => AppendAndFind(bot, s1, id, username, ens.headers)
  }

  /** `add_user_row` on the sheet `s1` with the headers `h`, then the
      search for the appended row; src/bot.py re-reads the header row for
      the header map, bot.py keeps `h`. */
  function AppendAndFind(bot: Bot, s1: Store, id: string, username: string, h: Row): (p: Result<Prepared, UpdateError>)
    ensures p.Ok? ==> |h| >= 2 && |p.value.store| == |s1| + 1
  {
    match NewRow(id, username, |h|)
    case None => Err(RowTooShort(|h|))
    case Some(newRow) =>
      var s2 := s1 + [newRow];
      var columns := if bot == PropertiesBot then Headers(s2) else h;
      match FindUserRow(bot, s2, id)
      case Found(r) => Ok(Prepared(SetCell(s2, r, 1, username), r, s2[r], columns))
      case _ => Err(RowNotFound)
  }

  /** What `update_best_times` leaves: the sheet, the player's row and the
      number of improvements. */
  datatype Outcome = Outcome(store: Store, row: nat, improved: nat)

  /** `update_best_times(discord_id, username, boss_data)` run by `bot` on
      the sheet `store`. */
  function UpdateBestTimes(bot: Bot, store: Store, id: string, username: string, batch: seq<BossTime>): (r: Result<Outcome, UpdateError>)
    ensures r.Ok? ==> 1 <= r.value.row < |r.value.store| && r.value.improved <= |batch|
  {
    match Prepare(bot, store, id, username, batch)
    case Err(e) => Err(e)
    case Ok(p) =>
      var (s, k) := Merge(p.store, p.row, p.snapshot, BuildHeaderMap(p.columns), batch);
      Ok(Outcome(s, p.row, k))
  }

  // ------------------------------------------------------ the row search

  /** Row `r` is the first row after the header row that belongs to the
      player, and (bot.py) no empty row comes before it. */
  predicate FirstRow(bot: Bot, store: Store, id: string, r: nat) {
    && 1 <= r < |store| && Holds(store[r], id)
    && forall j :: 1 <= j < r ==> !Holds(store[j], id) && (bot == ZipBot ==> store[j] != [])
  }

  /** No row after the header row belongs to the player, and (bot.py) none
      of them is empty. */
  predicate Unlisted(bot: Bot, store: Store, id: string) {
    forall j :: 1 <= j < |store| ==> !Holds(store[j], id) && (bot == ZipBot ==> store[j] != [])
  }

  lemma FindFirstRow(bot: Bot, store: Store, id: string, r: nat)
    requires FirstRow(bot, store, id, r)
    ensures FindUserRow(bot, store, id) == Found(r)
  {
  }

  lemma FindUnlisted(bot: Bot, store: Store, id: string)
    requires Unlisted(bot, store, id)
    ensures FindUserRow(bot, store, id) == Missing
  {
  }

  // ------------------------------------------------ before the loop

  /** The player's row exists: it is read as the snapshot, the header map
      comes from the ensured headers, and only the header row and the
      username cell change. */
  lemma PrepareFound(bot: Bot, store: Store, id: string, username: string, batch: seq<BossTime>, r: nat)
    requires FirstRow(bot, store, id, r)
    ensures var ens := Ensure(store, batch);
      var p := Prepare(bot, store, id, username, batch);
      && p.Ok? && p.value.row == r && p.value.snapshot == store[r] && p.value.columns == ens.headers
      && |p.value.store| == |store|
      && (forall j :: 1 <= j < |store| && j != r ==> p.value.store[j] == store[j])
      && p.value.store[0] == if ens.wrote then ens.headers else store[0]
  {
    FindFirstRow(bot, store, id, r);
    var ens := Ensure(store, batch);
    if ens.wrote {
      HeaderOverlay(store, batch);
    }
  }

  /** Writing the ensured headers over the header row leaves exactly them. */
  lemma HeaderOverlay(store: Store, batch: seq<BossTime>)
    ensures Overlay(Headers(store), Ensure(store, batch).headers) == Ensure(store, batch).headers
  {
    var hs := Headers(store);
    var h := Ensure(store, batch).headers;
    if hs != [] {
      assert BaseHeaders(hs) == hs;
      OverlayExtends(hs, h);
    }
  }

  /** The headers the header map is built from once a row was appended:
      bot.py keeps the ensured headers, src/bot.py re-reads the header
      row, which differs from them only when it was empty and not written. */
  function AppendColumns(bot: Bot, store: Store, ens: Ensured): Row
  {
    if bot == PropertiesBot && store != [] && store[0] == [] && !ens.wrote then [] else ens.headers
  }

  /** The player has no row: a row of the ensured width is appended and
      read back as the snapshot. The append fails with fewer than two
      headers, and is not found again when it lands in the header row of
      an empty sheet. */
  lemma PrepareAppended(bot: Bot, store: Store, id: string, username: string, batch: seq<BossTime>)
    requires Unlisted(bot, store, id)
    ensures var ens := Ensure(store, batch);
      var h := ens.headers;
      var p := Prepare(bot, store, id, username, batch);
      && (|h| < 2 ==> p == Err(RowTooShort(|h|)))
      && (|h| >= 2 && store == [] && !ens.wrote ==> p == Err(RowNotFound))
      && (|h| >= 2 && (store != [] || ens.wrote) ==>
            && p.Ok? && p.value.row == |p.value.store| - 1 == (if store == [] then 1 else |store|)
            && p.value.snapshot == NewRow(id, username, |h|).value
            && p.value.columns == AppendColumns(bot, store, ens)
            && (forall j :: 1 <= j < |store| ==> p.value.store[j] == store[j])
            && p.value.store[0] == if ens.wrote then h else store[0])
  {
    FindUnlisted(bot, store, id);
    var ens := Ensure(store, batch);
    var h := ens.headers;
    if |h| >= 2 && (store != [] || ens.wrote) {
      var s1 := if ens.wrote then WriteHeaders(store, h) else store;
      assert |s1| == if store == [] then 1 else |store|;
      assert forall j :: 1 <= j < |s1| ==> s1[j] == store[j];
      assert Prepare(bot, store, id, username, batch) == AppendAndFind(bot, s1, id, username, h);
      AppendFinds(bot, s1, id, username, h);
      if ens.wrote {
        HeaderOverlay(store, batch);
      }
    }
  }

  /** A row appended below rows that do not belong to the player is the
      one the search finds. */
  lemma AppendFinds(bot: Bot, s1: Store, id: string, username: string, h: Row)
    requires |h| >= 2 && s1 != []
    requires forall j :: 1 <= j < |s1| ==> !Holds(s1[j], id) && (bot == ZipBot ==> s1[j] != [])
    ensures var p := AppendAndFind(bot, s1, id, username, h);
      && p.Ok? && p.value.row == |s1| && |p.value.store| == |s1| + 1
      && (forall j :: 0 <= j < |s1| ==> p.value.store[j] == s1[j])
      && p.value.snapshot == NewRow(id, username, |h|).value
      && p.value.columns == if bot == PropertiesBot then s1[0] else h
  {
    var s2 := s1 + [NewRow(id, username, |h|).value];
    assert FirstRow(bot, s2, id, |s1|);
    FindFirstRow(bot, s2, id, |s1|);
    var st := SetCell(s2, |s1|, 1, username);
    assert forall j :: 0 <= j < |s1| ==> st[j] == s2[j] == s1[j];
  }

  /** Without empty rows, and with `h` already on the header row, both
      bots append and find the same row. */
  lemma AppendAgree(s1: Store, id: string, username: string, h: Row)
    requires forall j :: 1 <= j < |s1| ==> s1[j] != []
    requires s1 != [] ==> s1[0] == h
    ensures AppendAndFind(ZipBot, s1, id, username, h) == AppendAndFind(PropertiesBot, s1, id, username, h)
  {
    if |h| >= 2 {
      var s2 := s1 + [NewRow(id, username, |h|).value];
      assert forall j :: 1 <= j < |s2| ==> s2[j] != [];
      FindUserRowAgree(s2, id);
    }
  }

  // ------------------------------------------------------ after the loop

  /** Reference definition: column `c` of the player's row after the
      loop, for a row read as `snapshot` whose username cell was written
      first: the time of the last entry that writes `c`, else the username
      in column 1, else the snapshot's cell. */
  function Expected(snapshot: Row, headerMap: Assoc<string, nat>, batch: seq<BossTime>, username: string, c: nat): string
  {
    match LastWrite(snapshot, headerMap, batch, c)
    case Some(t) => IntToString(t)
    case None => if c == 1 then username else CellAt(snapshot, c)
  }

  /** The loop run on the prepared state. */
  lemma UpdateFromPrepared(bot: Bot, store: Store, id: string, username: string, batch: seq<BossTime>, c: nat)
    requires Prepare(bot, store, id, username, batch).Ok?
    ensures var p := Prepare(bot, store, id, username, batch).value;
      var hm := BuildHeaderMap(p.columns);
      var res := UpdateBestTimes(bot, store, id, username, batch);
      && res.Ok? && res.value.row == p.row && |res.value.store| == |p.store|
      && (forall j :: 0 <= j < |p.store| && j != p.row ==> res.value.store[j] == p.store[j])
      && res.value.improved == |Writers(p.snapshot, hm, batch)|
      && CellAt(res.value.store[p.row], c) == Expected(p.snapshot, hm, batch, username, c)
  {
    var p := Prepare(bot, store, id, username, batch).value;
    var hm := BuildHeaderMap(p.columns);
    MergeCount(p.store, p.row, p.snapshot, hm, batch);
    MergeCells(p.store, p.row, p.snapshot, hm, batch, c);
  }

  /** The player's row exists: the improvements are counted against that
      row as read, every cell of it ends as the reference says, and no
      other row changes except the header row. */
  lemma UpdateFound(bot: Bot, store: Store, id: string, username: string, batch: seq<BossTime>, r: nat, c: nat)
    requires FirstRow(bot, store, id, r)
    ensures var ens := Ensure(store, batch);
      var hm := BuildHeaderMap(ens.headers);
      var res := UpdateBestTimes(bot, store, id, username, batch);
      && res.Ok? && res.value.row == r && |res.value.store| == |store|
      && (forall j :: 1 <= j < |store| && j != r ==> res.value.store[j] == store[j])
      && res.value.store[0] == (if ens.wrote then ens.headers else store[0])
      && res.value.improved == |Writers(store[r], hm, batch)|
      && CellAt(res.value.store[r], c) == Expected(store[r], hm, batch, username, c)
  {
    PrepareFound(bot, store, id, username, batch, r);
    UpdateFromPrepared(bot, store, id, username, batch, c);
  }

  /** The player has no row: the errors of the append, or the appended
      row filled in as the reference says, with the other rows kept. */
  lemma UpdateAppended(bot: Bot, store: Store, id: string, username: string, batch: seq<BossTime>, c: nat)
    requires Unlisted(bot, store, id)
    ensures var ens := Ensure(store, batch);
      var h := ens.headers;
      var res := UpdateBestTimes(bot, store, id, username, batch);
      && (|h| < 2 ==> res == Err(RowTooShort(|h|)))
      && (|h| >= 2 && store == [] && !ens.wrote ==> res == Err(RowNotFound))
      && (|h| >= 2 && (store != [] || ens.wrote) ==>
            var snapshot := NewRow(id, username, |h|).value;
            var hm := BuildHeaderMap(AppendColumns(bot, store, ens));
            && res.Ok? && res.value.row == |res.value.store| - 1 == (if store == [] then 1 else |store|)
            && (forall j :: 1 <= j < |store| ==> res.value.store[j] == store[j])
            && res.value.store[0] == (if ens.wrote then h else store[0])
            && res.value.improved == |Writers(snapshot, hm, batch)|
            && CellAt(res.value.store[res.value.row], c) == Expected(snapshot, hm, batch, username, c))
  {
    PrepareAppended(bot, store, id, username, batch);
    var ens := Ensure(store, batch);
    if |ens.headers| >= 2 && (store != [] || ens.wrote) {
      UpdateFromPrepared(bot, store, id, username, batch, c);
    }
  }

  /** bot.py stops at an empty row before the player's row. */
  lemma UpdateEmptyRow(store: Store, id: string, username: string, batch: seq<BossTime>, r: nat)
    requires 1 <= r < |store| && store[r] == []
    requires forall j :: 1 <= j < r ==> !Holds(store[j], id) && store[j] != []
    ensures UpdateBestTimes(ZipBot, store, id, username, batch) == Err(EmptyRowAt(r))
  {
    assert FindUserRow(ZipBot, store, id) == EmptyRow(r);
  }

  // ------------------------------------------------------- best times

  /** A column other than the username's never gets worse: an integer
      there is replaced only by a smaller one. */
  lemma ExpectedNeverWorse(snapshot: Row, headerMap: Assoc<string, nat>, batch: seq<BossTime>, username: string, c: nat, prev: int)
    requires c != 1 && ParseInt(CellAt(snapshot, c)) == Some(prev)
    ensures var now := ParseInt(Expected(snapshot, headerMap, batch, username, c));
      now.Some? && now.value <= prev
  {
    match LastWrite(snapshot, headerMap, batch, c)
    case Some(t) =>
      assert t < prev by {
        var i :| 0 <= i < |batch| && WriteColumn(snapshot, headerMap, batch[i]) == Some(c) && batch[i].fastest == t;
        assert Improves(CellAt(snapshot, c), t);
      }
      ParseIntShow(t);
    case None =>
  }

  /** No two labels of the batch are equal ignoring case. */
  predicate DistinctKeys(batch: seq<BossTime>) {
    forall i, j :: 0 <= i < j < |batch| ==> BossKey(batch[i]) != BossKey(batch[j])
  }

  /** With distinct labels each entry is the only one that can write its
      column. */
  lemma OnlyWriter(snapshot: Row, columns: Row, batch: seq<BossTime>, i: nat, c: nat)
    requires DistinctKeys(batch) && i < |batch|
    requires HeaderIndex(columns, BossKey(batch[i])) == Some(c)
    ensures forall j :: 0 <= j < |batch| && j != i ==> WriteColumn(snapshot, BuildHeaderMap(columns), batch[j]) != Some(c)
  {
    forall j | 0 <= j < |batch| && j != i
      ensures WriteColumn(snapshot, BuildHeaderMap(columns), batch[j]) != Some(c)
    {
      BuildHeaderMapIndex(columns, BossKey(batch[j]));
    }
  }

  /** With distinct labels an entry's column ends with the better of its
      time and the snapshot's: the time when it improves on the cell, the
      cell otherwise. */
  lemma ExpectedDistinct(snapshot: Row, columns: Row, batch: seq<BossTime>, username: string, i: nat, c: nat)
    requires DistinctKeys(batch) && i < |batch|
    requires HeaderIndex(columns, BossKey(batch[i])) == Some(c) && c != 1
    ensures Expected(snapshot, BuildHeaderMap(columns), batch, username, c) ==
      if Improves(CellAt(snapshot, c), batch[i].fastest) then IntToString(batch[i].fastest) else CellAt(snapshot, c)
  {
    BuildHeaderMapIndex(columns, BossKey(batch[i]));
    OnlyWriter(snapshot, columns, batch, i, c);
  }

  /** Hence, with distinct labels, each entry's column ends with an integer
      no larger than the entry's time. */
  lemma ExpectedKeepsBest(snapshot: Row, columns: Row, batch: seq<BossTime>, username: string, i: nat, c: nat)
    requires DistinctKeys(batch) && i < |batch|
    requires HeaderIndex(columns, BossKey(batch[i])) == Some(c) && c != 1
    ensures var now := ParseInt(Expected(snapshot, BuildHeaderMap(columns), batch, username, c));
      && now.Some? && now.value <= batch[i].fastest
      && !Improves(Expected(snapshot, BuildHeaderMap(columns), batch, username, c), batch[i].fastest)
  {
    ExpectedDistinct(snapshot, columns, batch, username, i, c);
    ParseIntShow(batch[i].fastest);
  }

  /** Two entries with the same label both compare against the snapshot,
      so the later one wins even when it is slower. */
  lemma DuplicateLabelSlowerWins()
    ensures var batch := [BossTime("Zulrah", 50), BossTime("Zulrah", 70)];
      var columns := ["Discord ID", "Username", "Zulrah"];
      Expected(["1", "me", ""], BuildHeaderMap(columns), batch, "me", 2) == IntToString(70)
  {
    var columns: Row := ["Discord ID", "Username", "Zulrah"];
    assert Lower(columns[2]) == "zulrah";
    assert HeaderIndex(columns, "zulrah") == Some(2);
    BuildHeaderMapIndex(columns, "zulrah");
    assert ParseInt("") == None;
  }

  // ----------------------------------------------------------- rerunning

  /** What holds of every successful preparation: the header row, the rows
      before the player's, and the headers the map is built from. */
  lemma PrepareFacts(bot: Bot, store: Store, id: string, username: string, batch: seq<BossTime>)
    requires Prepare(bot, store, id, username, batch).Ok?
    ensures var p := Prepare(bot, store, id, username, batch).value;
      var ens := Ensure(store, batch);
      && (store == [] ==> ens.wrote)
      && p.store[0] == (if ens.wrote then ens.headers else store[0])
      && (forall j :: 1 <= j < |store| && j != p.row ==> p.store[j] == store[j])
      && (forall j :: 1 <= j < p.row ==> !Holds(p.store[j], id) && (bot == ZipBot ==> p.store[j] != []))
      && (p.columns == ens.headers || (p.columns == [] && store != [] && store[0] == [] && !ens.wrote))
  {
    match FindUserRow(bot, store, id)
    case Found(r) =>
      PrepareFound(bot, store, id, username, batch, r);
    case Missing =>
      PrepareAppended(bot, store, id, username, batch);
    case EmptyRow(r) =>
  }

  /** No label names the id column or the username column. */
  predicate ClearOfReserved(batch: seq<BossTime>, headers: Row) {
    forall i :: 0 <= i < |batch| ==>
      BossKey(batch[i]) != Lower(CellAt(headers, 0)) && BossKey(batch[i]) != Lower(CellAt(headers, 1))
  }

  /** Labels clear of the reserved columns are all new to an empty header
      row, so that row is written whenever there are labels. */
  lemma ClearWrites(store: Store, batch: seq<BossTime>)
    requires batch != [] && ClearOfReserved(batch, Ensure(store, batch).headers)
    requires store == [] || store[0] == []
    ensures Ensure(store, batch).wrote
  {
    assert !Known(DefaultHeaders, BossNames(batch)[0]);
  }

  /** A row whose cells are what the loop leaves gives no entry anything
      to improve. */
  lemma Settled(row: Row, snapshot: Row, columns: Row, batch: seq<BossTime>, username: string)
    requires DistinctKeys(batch) && ClearOfReserved(batch, columns)
    requires forall c: nat :: CellAt(row, c) == Expected(snapshot, BuildHeaderMap(columns), batch, username, c)
    ensures forall i :: 0 <= i < |batch| ==> WriteColumn(row, BuildHeaderMap(columns), batch[i]).None?
  {
    forall i | 0 <= i < |batch|
      ensures WriteColumn(row, BuildHeaderMap(columns), batch[i]).None?
    {
      BuildHeaderMapIndex(columns, BossKey(batch[i]));
      match HeaderIndex(columns, BossKey(batch[i]))
      case Some(c) =>
        ExpectedKeepsBest(snapshot, columns, batch, username, i, c);
      case None =>
    }
  }

  /** The loop writes nothing when no entry improves its cell. */
  lemma {:induction false} MergeNone(store: Store, r: nat, snapshot: Row, headerMap: Assoc<string, nat>, batch: seq<BossTime>)
    requires r < |store|
    requires forall i :: 0 <= i < |batch| ==> WriteColumn(snapshot, headerMap, batch[i]).None?
    ensures Merge(store, r, snapshot, headerMap, batch) == (store, 0)
    decreases |batch|
  {
    if batch != [] {
      MergeNone(store, r, snapshot, headerMap, batch[..|batch| - 1]);
    }
  }

  /** Labels clear of the reserved columns leave the id and the username
      as they were before the loop. */
  lemma ReservedUntouched(snapshot: Row, columns: Row, batch: seq<BossTime>, username: string)
    requires ClearOfReserved(batch, columns)
    ensures Expected(snapshot, BuildHeaderMap(columns), batch, username, 0) == CellAt(snapshot, 0)
    ensures Expected(snapshot, BuildHeaderMap(columns), batch, username, 1) == username
  {
    forall i | 0 <= i < |batch| {
      BuildHeaderMapIndex(columns, BossKey(batch[i]));
    }
  }

  /** The loop on the prepared state, for every column at once. */
  lemma UpdateRow(bot: Bot, store: Store, id: string, username: string, batch: seq<BossTime>)
    requires Prepare(bot, store, id, username, batch).Ok?
    ensures var p := Prepare(bot, store, id, username, batch).value;
      var res := UpdateBestTimes(bot, store, id, username, batch);
      && res.Ok? && res.value.row == p.row && |res.value.store| == |p.store|
      && (forall j :: 0 <= j < |p.store| && j != p.row ==> res.value.store[j] == p.store[j])
      && |res.value.store[p.row]| >= |p.store[p.row]|
      && forall c: nat :: CellAt(res.value.store[p.row], c) == Expected(p.snapshot, BuildHeaderMap(p.columns), batch, username, c)
  {
    forall c: nat
      ensures CellAt(UpdateBestTimes(bot, store, id, username, batch).value.store[Prepare(bot, store, id, username, batch).value.row], c)
        == Expected(Prepare(bot, store, id, username, batch).value.snapshot,
                    BuildHeaderMap(Prepare(bot, store, id, username, batch).value.columns), batch, username, c)
    {
      UpdateFromPrepared(bot, store, id, username, batch, c);
    }
    UpdateFromPrepared(bot, store, id, username, batch, 0);
  }

  /** Labels clear of the reserved columns of the ensured headers are clear
      of those of the headers the map is built from. */
  lemma ColumnsClear(bot: Bot, store: Store, id: string, username: string, batch: seq<BossTime>)
    requires Prepare(bot, store, id, username, batch).Ok?
    requires ClearOfReserved(batch, Ensure(store, batch).headers)
    ensures var p := Prepare(bot, store, id, username, batch).value;
      && ClearOfReserved(batch, p.columns)
      && (batch != [] ==> p.columns == Ensure(store, batch).headers)
  {
    var p := Prepare(bot, store, id, username, batch).value;
    PrepareFacts(bot, store, id, username, batch);
    if batch != [] && p.columns != Ensure(store, batch).headers {
      ClearWrites(store, batch);
    }
  }

  /** After one update the player's row is the first one found, and its
      id and username cells are in place. */
  lemma RerunRow(bot: Bot, store: Store, id: string, username: string, batch: seq<BossTime>)
    requires UpdateBestTimes(bot, store, id, username, batch).Ok?
    requires ClearOfReserved(batch, Ensure(store, batch).headers)
    ensures var o := UpdateBestTimes(bot, store, id, username, batch).value;
      && FirstRow(bot, o.store, id, o.row)
      && |o.store[o.row]| > 1 && o.store[o.row][1] == username
  {
    var p := Prepare(bot, store, id, username, batch).value;
    var o := UpdateBestTimes(bot, store, id, username, batch).value;
    PrepareFacts(bot, store, id, username, batch);
    ColumnsClear(bot, store, id, username, batch);
    UpdateRow(bot, store, id, username, batch);
    ReservedUntouched(p.snapshot, p.columns, batch, username);
    assert CellAt(o.store[o.row], 0) == id;
    assert CellAt(o.store[o.row], 1) == username;
  }

  /** The header row after an update: the ensured headers if they were
      written, the old header row otherwise. */
  lemma HeaderRowKept(bot: Bot, store: Store, id: string, username: string, batch: seq<BossTime>)
    requires UpdateBestTimes(bot, store, id, username, batch).Ok?
    ensures var o := UpdateBestTimes(bot, store, id, username, batch).value;
      var ens := Ensure(store, batch);
      (store == [] ==> ens.wrote) && o.store[0] == if ens.wrote then ens.headers else store[0]
  {
    PrepareFacts(bot, store, id, username, batch);
    UpdateFromPrepared(bot, store, id, username, batch, 0);
  }

  /** A header row holding the ensured headers needs no further write. */
  lemma EnsureAfterWrite(later: Store, store: Store, batch: seq<BossTime>)
    requires forall i :: 0 <= i < |batch| ==> batch[i].boss != []
    requires Headers(later) == Ensure(store, batch).headers
    ensures Ensure(later, batch) == Ensured(Ensure(store, batch).headers, false)
  {
    EnsureIdempotent(BossNames(batch), Headers(store));
  }

  /** After one update the header row needs no write. */
  lemma RerunHeaders(bot: Bot, store: Store, id: string, username: string, batch: seq<BossTime>)
    requires UpdateBestTimes(bot, store, id, username, batch).Ok?
    requires forall i :: 0 <= i < |batch| ==> batch[i].boss != []
    ensures var o := UpdateBestTimes(bot, store, id, username, batch).value;
      Ensure(o.store, batch) == Ensured(Ensure(store, batch).headers, false)
  {
    var o := UpdateBestTimes(bot, store, id, username, batch).value;
    HeaderRowKept(bot, store, id, username, batch);
    if Ensure(store, batch).wrote {
      EnsureAfterWrite(o.store, store, batch);
    } else {
      assert Headers(o.store) == Headers(store);
    }
  }

  /** After one update no entry improves on the player's row. */
  lemma RerunSettled(bot: Bot, store: Store, id: string, username: string, batch: seq<BossTime>)
    requires UpdateBestTimes(bot, store, id, username, batch).Ok?
    requires DistinctKeys(batch) && ClearOfReserved(batch, Ensure(store, batch).headers)
    ensures var o := UpdateBestTimes(bot, store, id, username, batch).value;
      forall i :: 0 <= i < |batch| ==> WriteColumn(o.store[o.row], BuildHeaderMap(Ensure(store, batch).headers), batch[i]).None?
  {
    var p := Prepare(bot, store, id, username, batch).value;
    var o := UpdateBestTimes(bot, store, id, username, batch).value;
    ColumnsClear(bot, store, id, username, batch);
    UpdateRow(bot, store, id, username, batch);
    if batch != [] {
      Settled(o.store[o.row], p.snapshot, p.columns, batch, username);
    }
  }

  /** Running the update a second time with the same batch changes
      nothing and counts no improvement, provided the labels are non-empty,
      distinct ignoring case and clear of the id and username columns. */
  lemma UpdateIdempotent(bot: Bot, store: Store, id: string, username: string, batch: seq<BossTime>)
    requires UpdateBestTimes(bot, store, id, username, batch).Ok?
    requires forall i :: 0 <= i < |batch| ==> batch[i].boss != []
    requires DistinctKeys(batch) && ClearOfReserved(batch, Ensure(store, batch).headers)
    ensures var o := UpdateBestTimes(bot, store, id, username, batch).value;
      UpdateBestTimes(bot, o.store, id, username, batch) == Ok(Outcome(o.store, o.row, 0))
  {
    var o := UpdateBestTimes(bot, store, id, username, batch).value;
    var h := Ensure(store, batch).headers;
    RerunRow(bot, store, id, username, batch);
    RerunHeaders(bot, store, id, username, batch);
    RerunSettled(bot, store, id, username, batch);
    FindFirstRow(bot, o.store, id, o.row);
    SetCellSame(o.store, o.row, 1, username);
    assert Prepare(bot, o.store, id, username, batch) == Ok(Prepared(o.store, o.row, o.store[o.row], h));
    MergeNone(o.store, o.row, o.store[o.row], BuildHeaderMap(h), batch);
  }

  // ---------------------------------------------------------- the two bots

  /** Without empty rows, and unless the header row is empty and left
      unwritten, the two bots compute the same update. */
  lemma BotsAgree(store: Store, id: string, username: string, batch: seq<BossTime>)
    requires forall j :: 1 <= j < |store| ==> store[j] != []
    requires store == [] || store[0] != [] || Ensure(store, batch).wrote
    ensures UpdateBestTimes(ZipBot, store, id, username, batch) == UpdateBestTimes(PropertiesBot, store, id, username, batch)
  {
    FindUserRowAgree(store, id);
    assert Prepare(ZipBot, store, id, username, batch) == Prepare(PropertiesBot, store, id, username, batch) by {
      if FindUserRow(PropertiesBot, store, id).Missing? {
        PrepareAgreeMissing(store, id, username, batch);
      }
    }
  }

  /** The appending half of `BotsAgree`: the appended row is found again
      by both searches, and both read the same header row. */
  lemma PrepareAgreeMissing(store: Store, id: string, username: string, batch: seq<BossTime>)
    requires forall j :: 1 <= j < |store| ==> store[j] != []
    requires store == [] || store[0] != [] || Ensure(store, batch).wrote
    requires FindUserRow(PropertiesBot, store, id) == Missing
    ensures Prepare(ZipBot, store, id, username, batch) == Prepare(PropertiesBot, store, id, username, batch)
  {
    FindUserRowAgree(store, id);
    var ens := Ensure(store, batch);
    var h := ens.headers;
    var s1 := if ens.wrote then WriteHeaders(store, h) else store;
    assert s1 != [] ==> s1[0] == h by {
      if ens.wrote {
        HeaderOverlay(store, batch);
      } else if store != [] {
        assert BaseHeaders(store[0]) == store[0];
      }
    }
    AppendAgree(s1, id, username, h);
  }
}
