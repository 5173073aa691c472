/**
 Spreadsheet column names, used to address header and cell ranges: column
 index 0 is "A", 25 is "Z", 26 is "AA" and so on (bijective base 26).
 */
module Columns {

  predicate IsUpper(c: char) {
    'A' <= c <= 'Z'
  }

  predicate AllUpper(s: string) {
    forall i :: 0 <= i < |s| ==> IsUpper(s[i])
  }

  /** `chr(65 + d)`. */
  function Letter(d: int): (c: char)
    requires 0 <= d < 26
    ensures IsUpper(c)
  {
    (65 + d) as char
  }

  /** The letters for the 1-based column number `m`: the last letter is
      `(m - 1) % 26`, the rest name `(m - 1) / 26`; nothing for `m <= 0`. */
  function Bijective(m: int): (s: string)
    ensures AllUpper(s)
    ensures m > 0 <==> s != []
    decreases m
  {
    if m <= 0 then "" else Bijective((m - 1) / 26) + [Letter((m - 1) % 26)]
  }

  /** The column name of the 0-based index `n`. */
  function ColumnName(n: int): string
  {
    Bijective(n + 1)
  }

  /** `col_to_letter(n)` in src/bot.py, as a loop: `n += 1`, then while
      `n > 0` take `divmod(n - 1, 26)` and prepend the letter. */
  method ColToLetter(n: int) returns (result: string)
    ensures result == ColumnName(n)
    ensures n >= 0 ==> result != [] && AllUpper(result)
    ensures n < 0 ==> result == ""
  {
    result := "";
    var m := n + 1;
    while m > 0
      invariant Bijective(m) + result == Bijective(n + 1)
      decreases m
    {
      var r := (m - 1) % 26;
      var rest := (m - 1) / 26;
      assert Bijective(m) == Bijective(rest) + [Letter(r)];
      assert Bijective(rest) + ([Letter(r)] + result) == Bijective(m) + result;
      result := [Letter(r)] + result;
      m := rest;
    }
  }

  /** The 1-based column number a name denotes. */
  function NameValue(s: string): int
    requires AllUpper(s)
  {
    if s == [] then 0
    else NameValue(s[..|s| - 1]) * 26 + (s[|s| - 1] as int - 'A' as int + 1)
  }

  /** The 0-based index of the column named `s` (the inverse direction). */
  function ColumnIndex(s: string): int
    requires AllUpper(s)
  {
    NameValue(s) - 1
  }

  lemma {:induction false} NameValueOfBijective(m: int)
    requires m >= 0
    ensures NameValue(Bijective(m)) == m
    decreases m
  {
    if m > 0 {
      var s := Bijective(m);
      NameValueOfBijective((m - 1) / 26);
      assert s[..|s| - 1] == Bijective((m - 1) / 26);
    }
  }

  lemma {:induction false} BijectiveOfNameValue(s: string)
    requires AllUpper(s)
    ensures NameValue(s) >= 0
    ensures Bijective(NameValue(s)) == s
    decreases |s|
  {
    if s != [] {
      var init := s[..|s| - 1];
      var d := s[|s| - 1] as int - 'A' as int;
      BijectiveOfNameValue(init);
      var m := NameValue(s);
      assert m - 1 == NameValue(init) * 26 + d;
      assert (m - 1) / 26 == NameValue(init) && (m - 1) % 26 == d;
      assert s == init + [Letter(d)];
    }
  }

  /** Reading back the name of a column gives its index. */
  lemma ColumnNameRoundTrip(n: int)
    requires n >= 0
    ensures AllUpper(ColumnName(n))
    ensures ColumnIndex(ColumnName(n)) == n
  {
    NameValueOfBijective(n + 1);
  }

  /** Every non-empty upper-case name is the name of its index. */
  lemma ColumnIndexRoundTrip(s: string)
    requires s != [] && AllUpper(s)
    ensures ColumnIndex(s) >= 0
    ensures ColumnName(ColumnIndex(s)) == s
  {
    BijectiveOfNameValue(s);
  }

  /** Distinct columns have distinct names. */
  lemma ColumnNameInjective(a: int, b: int)
    requires a >= 0 && b >= 0 && a != b
    ensures ColumnName(a) != ColumnName(b)
  {
    ColumnNameRoundTrip(a);
    ColumnNameRoundTrip(b);
  }

  /** The values `col_to_letter`'s own comment (0 -> A, 1 -> B) and the
      column ranges rely on. */
  lemma ColumnNameExamples()
    ensures ColumnName(0) == "A" && ColumnName(1) == "B" && ColumnName(25) == "Z"
    ensures ColumnName(26) == "AA" && ColumnName(701) == "ZZ"
  {
    assert Bijective(1) == "A";
    assert Bijective(2) == "B";
    assert Bijective(26) == "Z";
    assert Bijective(27) == Bijective(1) + "A";
    assert Bijective(702) == Bijective(26) + "Z";
  }
}
