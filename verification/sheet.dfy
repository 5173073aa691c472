/**
 The `BestTimes` sheet as a value: a sequence of rows of cell texts, row 0
 holding the column headers and every other row one player, keyed by the
 Discord id in column 0. The remote calls of pb_tracker (read the
 sheet, write the header row, append a row, update a cell) are pure
 functions on this value; here also are the helpers of
 `update_best_times` in src/bot.py and bot.py.
 */
module Sheet {
  import opened Wrappers
  import opened Text
  import opened Assoc

  type Row = seq<string>
  type Store = seq<Row>

  /** The two bots that reconcile the sheet: src/bot.py (properties
      uploads) and bot.py (zip uploads). They differ in two details. */
  datatype Bot = PropertiesBot | ZipBot

  // ------------------------------------------------------------- cells

  /** The text of cell `c` of a row; a cell past the end of the row reads
      as empty (the sheet does not return trailing empty cells). */
  function CellAt(row: Row, c: int): string
  {
    if 0 <= c < |row| then row[c] else ""
  }

  /** `headers = values[0] if values else []`. */
  function Headers(store: Store): Row
  {
    if store == [] then [] else store[0]
  }

  /** A row with cell `c` set to `v`, padded with empty cells if short. */
  function SetInRow(row: Row, c: nat, v: string): (r: Row)
    ensures |r| == if c < |row| then |row| else c + 1
    ensures forall j :: CellAt(r, j) == if j == c then v else CellAt(row, j)
  {
    if c < |row| then row[c := v] else row + seq(c - |row|, _ => "") + [v]
  }

  /** `update_cell(r, c, v)`: one cell changes, nothing else. */
  function SetCell(store: Store, r: nat, c: nat, v: string): (s: Store)
    requires r < |store|
    ensures |s| == |store|
    ensures forall i :: 0 <= i < |store| && i != r ==> s[i] == store[i]
    ensures |s[r]| >= |store[r]| && |s[r]| > c
    ensures forall j :: CellAt(s[r], j) == if j == c then v else CellAt(store[r], j)
  {
    store[r := SetInRow(store[r], c, v)]
  }

  /** Writing a cell the value it already holds leaves the sheet as it was. */
  lemma SetCellSame(store: Store, r: nat, c: nat, v: string)
    requires r < |store| && c < |store[r]| && store[r][c] == v
    ensures SetCell(store, r, c, v) == store
  {
    assert store[r][c := v] == store[r];
  }

  /** A range write of `h` over the start of a row. */
  function Overlay(row: Row, h: Row): (r: Row)
    ensures |r| == if |row| <= |h| then |h| else |row|
    ensures forall j :: CellAt(r, j) == if 0 <= j < |h| then h[j] else CellAt(row, j)
  {
    if |row| <= |h| then h else h + row[|h|..]
  }

  /** Writing headers that extend the present ones makes them the header row. */
  lemma OverlayExtends(row: Row, h: Row)
    requires |row| <= |h| && h[..|row|] == row
    ensures Overlay(row, h) == h
  {
  }

  /** `write_headers(h)`: the range from A1 to the last column of row 1. */
  function WriteHeaders(store: Store, h: Row): (s: Store)
    ensures |s| == if store == [] then 1 else |store|
    ensures s[0] == Overlay(Headers(store), h)
    ensures forall i :: 1 <= i < |store| ==> s[i] == store[i]
  {
    if store == [] then [h] else [Overlay(store[0], h)] + store[1..]
  }

  // ------------------------------------------------ ensure_boss_columns

  /** The header row of an empty sheet. */
  const DefaultHeaders: Row := ["Discord ID", "Username"]

  function BaseHeaders(headers: Row): (base: Row)
    ensures base != []
  {
    if headers == [] then DefaultHeaders else headers
  }

  /** Whether some non-empty header equals `name` ignoring case. */
  predicate Known(headers: Row, name: string) {
    exists i :: 0 <= i < |headers| && headers[i] != [] && Lower(headers[i]) == Lower(name)
  }

  /** `[b for b in bosses if b.lower() not in existing]`: order and
      repetitions kept. */
  function NewBosses(bosses: seq<string>, headers: Row): (added: seq<string>)
    ensures |added| <= |bosses|
    ensures forall b :: b in added <==> b in bosses && !Known(headers, b)
  {
    Filter(bosses, b => !Known(headers, b))
  }

  /** The new bosses keep the order and the repetitions of `bosses`:
      the bosses of a concatenation are those of each part in turn, and
      one boss is new exactly when no header names it. */
  lemma NewBossesOrder(a: seq<string>, b: seq<string>, x: string, headers: Row)
    ensures NewBosses(a + b, headers) == NewBosses(a, headers) + NewBosses(b, headers)
    ensures NewBosses([x], headers) == if Known(headers, x) then [] else [x]
  {
    FilterAppend(a, b, n => !Known(headers, n));
    FilterOne(x, n => !Known(headers, n));
  }

  /** The headers `ensure_boss_columns` returns and whether it wrote them. */
  datatype Ensured = Ensured(headers: Row, wrote: bool)

  /** `ensure_boss_columns(bosses, headers)`: the headers (or the default
      ones) followed by the bosses no header names yet; the header row is
      written exactly when there are such bosses. */
  function EnsureBossColumns(bosses: seq<string>, headers: Row): (e: Ensured)
    ensures |e.headers| >= |BaseHeaders(headers)| && e.headers[..|BaseHeaders(headers)|] == BaseHeaders(headers)
    ensures e.wrote <==> exists i :: 0 <= i < |bosses| && !Known(BaseHeaders(headers), bosses[i])
    ensures !e.wrote ==> e.headers == BaseHeaders(headers)
    ensures e.wrote ==> e.headers == BaseHeaders(headers) + NewBosses(bosses, BaseHeaders(headers))
  {
    var base := BaseHeaders(headers);
    var added := NewBosses(bosses, base);
    if added != [] then
      assert added[0] in added;
      Ensured(base + added, true)
    else
      assert forall i :: 0 <= i < |bosses| ==> bosses[i] !in added;
      Ensured(base, false)
  }

  /** Every requested boss has a column whose header equals it ignoring
      case, and a non-empty one has a non-empty such header. */
  lemma EnsureCovers(bosses: seq<string>, headers: Row, b: string)
    requires b in bosses
    ensures var h := EnsureBossColumns(bosses, headers).headers;
      exists i :: 0 <= i < |h| && Lower(h[i]) == Lower(b) && (b != [] ==> h[i] != [])
  {
    var base := BaseHeaders(headers);
    var h := EnsureBossColumns(bosses, headers).headers;
    if Known(base, b) {
      var i :| 0 <= i < |base| && base[i] != [] && Lower(base[i]) == Lower(b);
      assert h[i] == base[i];
    } else {
      var added := NewBosses(bosses, base);
      var k :| 0 <= k < |added| && added[k] == b;
      assert h == base + added;
      assert h[|base| + k] == b;
    }
  }

  /** A second call with the same non-empty bosses writes nothing and
      returns the headers unchanged. */
  lemma EnsureIdempotent(bosses: seq<string>, headers: Row)
    requires forall i :: 0 <= i < |bosses| ==> bosses[i] != []
    ensures var h := EnsureBossColumns(bosses, headers).headers;
      EnsureBossColumns(bosses, h) == Ensured(h, false)
  {
    var h := EnsureBossColumns(bosses, headers).headers;
    forall i | 0 <= i < |bosses| ensures Known(h, bosses[i]) {
      EnsureCovers(bosses, headers, bosses[i]);
    }
  }

  // --------------------------------------------------- build_header_map

  /** Reference definition: the last column whose header is `key` once
      lower-cased. */
  function HeaderIndex(headers: Row, key: string): (i: Option<nat>)
    ensures i.Some? ==> i.value < |headers| && Lower(headers[i.value]) == key
    ensures i.Some? ==> forall j :: i.value < j < |headers| ==> Lower(headers[j]) != key
    ensures i.None? ==> forall j :: 0 <= j < |headers| ==> Lower(headers[j]) != key
  {
    if headers == [] then None
    else if Lower(headers[|headers| - 1]) == key then Some(|headers| - 1)
    else HeaderIndex(headers[..|headers| - 1], key)
  }

  /** The (lower-cased header, column) assignments of the comprehension. */
  function HeaderPairs(headers: Row): (rs: seq<Option<(string, nat)>>)
    ensures |rs| == |headers|
    ensures forall i :: 0 <= i < |headers| ==> rs[i] == Some((Lower(headers[i]), i as nat))
  {
    seq(|headers|, i requires 0 <= i < |headers| => Some((Lower(headers[i]), i as nat)))
  }

  /** `build_header_map(headers)`: `{h.lower(): i for i, h in enumerate(headers)}`. */
  function BuildHeaderMap(headers: Row): (m: Assoc<string, nat>)
    ensures UniqueKeys(m)
  {
    PutAll(HeaderPairs(headers))
  }

  /** A lookup in the header map finds the last column with that header. */
  lemma BuildHeaderMapIndex(headers: Row, key: string)
    ensures Get(BuildHeaderMap(headers), key) == HeaderIndex(headers, key)
  {
    PutAllLastWins(HeaderPairs(headers), key);
    LastForHeaders(headers, key);
  }

  lemma {:induction false} LastForHeaders(headers: Row, key: string)
    ensures LastFor(HeaderPairs(headers), key) == HeaderIndex(headers, key)
    decreases |headers|
  {
    if headers != [] {
      var init := headers[..|headers| - 1];
      assert HeaderPairs(headers)[..|headers| - 1] == HeaderPairs(init);
      LastForHeaders(init, key);
    }
  }

  // ------------------------------------------------------ find_user_row

  /** Whether a row belongs to player `id`. */
  predicate Holds(row: Row, id: string) {
    row != [] && row[0] == id
  }

  /** The outcome of the row search: the row, no row, or (bot.py only)
      the `IndexError` of reading column 0 of an empty row. */
  datatype Scan = Found(r: nat) | Missing | EmptyRow(r: nat)

  /** The search from row `from` on. */
  function ScanFrom(bot: Bot, rows: Store, id: string, from: nat): (s: Scan)
    requires 1 <= from
    ensures s.Found? ==> from <= s.r < |rows| && Holds(rows[s.r], id)
    ensures s.EmptyRow? ==> bot == ZipBot && from <= s.r < |rows| && rows[s.r] == []
    ensures forall j :: from <= j < |rows| && (s.Missing? || (s.Found? && j < s.r) || (s.EmptyRow? && j < s.r)) ==>
      !Holds(rows[j], id) && (bot == ZipBot ==> rows[j] != [])
    decreases |rows| - from
  {
    if from >= |rows| then Missing
    else if bot == ZipBot && rows[from] == [] then EmptyRow(from)
    else if Holds(rows[from], id) then Found(from)
    else ScanFrom(bot, rows, id, from + 1)
  }

  /** `find_user_row(values, discord_id)`: the first row after the header
      row that belongs to the player. src/bot.py skips empty rows; bot.py
      reads `values[r][0]` unguarded, so an empty row before the player's
      row is an error. The header row is never returned. */
  function FindUserRow(bot: Bot, rows: Store, id: string): (s: Scan)
    ensures s.Found? ==> 1 <= s.r < |rows| && Holds(rows[s.r], id)
    ensures s.Found? ==> forall j :: 1 <= j < s.r ==> !Holds(rows[j], id)
    ensures s.Missing? ==> forall j :: 1 <= j < |rows| ==> !Holds(rows[j], id)
    ensures s.EmptyRow? ==> bot == ZipBot && 1 <= s.r < |rows| && rows[s.r] == []
    ensures bot == ZipBot ==> forall j :: 1 <= j < |rows| && (s.Missing? || j < s.r) ==> rows[j] != []
  {
    ScanFrom(bot, rows, id, 1)
  }

  /** Without empty rows the two searches agree. */
  lemma {:induction false} ScanAgree(rows: Store, id: string, from: nat)
    requires 1 <= from
    requires forall j :: from <= j < |rows| ==> rows[j] != []
    ensures ScanFrom(ZipBot, rows, id, from) == ScanFrom(PropertiesBot, rows, id, from)
    decreases |rows| - from
  {
    if from < |rows| {
      ScanAgree(rows, id, from + 1);
    }
  }

  lemma FindUserRowAgree(rows: Store, id: string)
    requires forall j :: 1 <= j < |rows| ==> rows[j] != []
    ensures FindUserRow(ZipBot, rows, id) == FindUserRow(PropertiesBot, rows, id)
  {
    ScanAgree(rows, id, 1);
  }

  // -------------------------------------------------------- add_user_row

  /** The row `add_user_row` appends: `col_count` cells, the id in column
      0 and the username in column 1; `None` is the `IndexError` of a
      header row shorter than two columns. */
  function NewRow(id: string, username: string, colCount: nat): (row: Option<Row>)
    ensures row.Some? <==> colCount >= 2
    ensures row.Some? ==> |row.value| == colCount && row.value[0] == id && row.value[1] == username
    ensures row.Some? ==> forall j :: 2 <= j < colCount ==> row.value[j] == ""
  {
    if colCount < 2 then None
    else Some([id, username] + seq(colCount - 2, _ => ""))
  }
}
