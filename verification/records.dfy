/** The record that flows from the parsers into the sheet reconciliation. */
module Records {
  import Text

  /** One personal best: `{"boss": name, "fastest": seconds}`. */
  datatype BossTime = BossTime(boss: string, fastest: int)

  /** The sort key of a personal best and its header lookup key: the
      lower-cased boss name. */
  function BossKey(e: BossTime): string
  {
    Text.Lower(e.boss)
  }

  /** The boss names of a batch, in order (`[b["boss"] for b in boss_data]`). */
  function BossNames(batch: seq<BossTime>): (names: seq<string>)
    ensures |names| == |batch|
    ensures forall i :: 0 <= i < |batch| ==> names[i] == batch[i].boss
  {
    seq(|batch|, i requires 0 <= i < |batch| => batch[i].boss)
  }
}
