/**
 Boss labels are stored as keys of a Java properties file, where a space,
 ':' and '=' are written with a leading backslash and a backslash is
 doubled. `Unescape` is the repair applied to a label before it is shown
 or stored (`simple_unescape` in src/bot.py).
 */
module Escapes {
  import opened Text

  /** `simple_unescape`: four literal replacements, in this order. */
  function Unescape(name: string): (r: string)
    ensures |r| <= |name|
    ensures '\\' !in name ==> r == name
  {
    var a := ReplaceAll(name, "\\ ", " ");
    var b := ReplaceAll(a, "\\:", ":");
    var c := ReplaceAll(b, "\\=", "=");
    ReplaceAllShrinks(name, "\\ ", " ");
    ReplaceAllShrinks(a, "\\:", ":");
    ReplaceAllShrinks(b, "\\=", "=");
    ReplaceAllShrinks(c, "\\\\", "\\");
    if '\\' !in name then
      ReplaceAllAbsent(name, "\\ ", " ");
      ReplaceAllAbsent(a, "\\:", ":");
      ReplaceAllAbsent(b, "\\=", "=");
      ReplaceAllAbsent(c, "\\\\", "\\");
      ReplaceAll(c, "\\\\", "\\")
    else
      ReplaceAll(c, "\\\\", "\\")
  }

  /** One character as a properties key writes it: a backslash is doubled
      and the characters in `escaped` get a backslash in front. */
  function EscapeChar(c: char, escaped: set<char>): string
  {
    if c == '\\' then "\\\\" else if c in escaped then ['\\', c] else [c]
  }

  function EscapeWith(s: string, escaped: set<char>): string
  {
    if s == [] then "" else EscapeChar(s[0], escaped) + EscapeWith(s[1..], escaped)
  }

  /** The properties-file spelling of a label, as far as `Unescape` reverses it. */
  function Escape(s: string): string
  {
    EscapeWith(s, {' ', ':', '='})
  }

  /** `ReplaceAll` steps over a first character that cannot start a match. */
  lemma ReplaceAllCons(c: char, t: string, pat: string, rep: string)
    requires |pat| == 2
    requires c != pat[0] || t == [] || t[0] != pat[1]
    ensures ReplaceAll([c] + t, pat, rep) == [c] + ReplaceAll(t, pat, rep)
  {
    var s := [c] + t;
    assert s[1..] == t;
    if |s| >= 2 {
      assert s[..2][0] == c;
      assert s[..2][1] == t[0];
    }
  }

  /** `ReplaceAll` replaces a match at the front. */
  lemma ReplaceAllFront(t: string, pat: string, rep: string)
    requires pat != []
    ensures ReplaceAll(pat + t, pat, rep) == rep + ReplaceAll(t, pat, rep)
  {
    assert (pat + t)[..|pat|] == pat;
    assert (pat + t)[|pat|..] == t;
  }

  /** An escaped text never starts with a character that is escaped. */
  lemma EscapedHead(s: string, escaped: set<char>, c0: char)
    requires c0 in escaped && c0 != '\\'
    requires EscapeWith(s, escaped) != []
    ensures EscapeWith(s, escaped)[0] != c0
  {
  }

  /** Undoing the escape of `c0` in front of an already undone rest. */
  lemma UnescapeStep(x: char, p: string, q: string, escaped: set<char>, c0: char)
    requires c0 in escaped && c0 != '\\'
    requires p == [] || p[0] != c0
    requires ReplaceAll(p, ['\\', c0], [c0]) == q
    ensures ReplaceAll(EscapeChar(x, escaped) + p, ['\\', c0], [c0]) == EscapeChar(x, escaped - {c0}) + q
  {
    if x == c0 {
      UnescapeTarget(p, q, c0);
    } else if x == '\\' {
      UnescapeBackslash(p, q, c0);
    } else if x in escaped {
      UnescapeOther(x, p, q, c0);
    } else {
      ReplaceAllCons(x, p, ['\\', c0], [c0]);
    }
  }

  /** The escaped `c0` itself loses its backslash. */
  lemma UnescapeTarget(p: string, q: string, c0: char)
    requires ReplaceAll(p, ['\\', c0], [c0]) == q
    ensures ReplaceAll(['\\', c0] + p, ['\\', c0], [c0]) == [c0] + q
  {
    ReplaceAllFront(p, ['\\', c0], [c0]);
  }

  /** A doubled backslash stays, as the next character is not `c0`. */
  lemma UnescapeBackslash(p: string, q: string, c0: char)
    requires c0 != '\\' && (p == [] || p[0] != c0)
    requires ReplaceAll(p, ['\\', c0], [c0]) == q
    ensures ReplaceAll("\\\\" + p, ['\\', c0], [c0]) == "\\\\" + q
  {
    var pat := ['\\', c0];
    var t := ['\\'] + p;
    assert ReplaceAll(t, pat, [c0]) == ['\\'] + q by {
      ReplaceAllCons('\\', p, pat, [c0]);
    }
    assert ReplaceAll(['\\'] + t, pat, [c0]) == ['\\'] + (['\\'] + q) by {
      ReplaceAllCons('\\', t, pat, [c0]);
    }
    assert "\\\\" + p == ['\\'] + t;
    assert ['\\'] + (['\\'] + q) == "\\\\" + q;
  }

  /** Another escaped character keeps its backslash. */
  lemma UnescapeOther(x: char, p: string, q: string, c0: char)
    requires x != c0 && x != '\\'
    requires ReplaceAll(p, ['\\', c0], [c0]) == q
    ensures ReplaceAll(['\\', x] + p, ['\\', c0], [c0]) == ['\\', x] + q
  {
    var pat := ['\\', c0];
    assert ['\\', x] + p == ['\\'] + ([x] + p);
    ReplaceAllCons(x, p, pat, [c0]);
    ReplaceAllCons('\\', [x] + p, pat, [c0]);
    assert ['\\'] + ([x] + q) == ['\\', x] + q;
  }

  /** Undoing the escape of one character `c0`. */
  lemma {:induction false} UnescapeOne(s: string, escaped: set<char>, c0: char)
    requires c0 in escaped && c0 != '\\'
    ensures ReplaceAll(EscapeWith(s, escaped), ['\\', c0], [c0]) == EscapeWith(s, escaped - {c0})
    decreases |s|
  {
    if s != [] {
      var p := EscapeWith(s[1..], escaped);
      UnescapeOne(s[1..], escaped, c0);
      if p != [] {
        EscapedHead(s[1..], escaped, c0);
      }
      UnescapeStep(s[0], p, EscapeWith(s[1..], escaped - {c0}), escaped, c0);
    }
  }

  /** Undoing the doubled backslashes once nothing else is escaped. */
  lemma {:induction false} UnescapeBackslashes(s: string)
    ensures ReplaceAll(EscapeWith(s, {}), "\\\\", "\\") == s
    decreases |s|
  {
    if s != [] {
      var p := EscapeWith(s[1..], {});
      UnescapeBackslashes(s[1..]);
      if s[0] == '\\' {
        ReplaceAllFront(p, "\\\\", "\\");
      } else {
        ReplaceAllCons(s[0], p, "\\\\", "\\");
      }
      assert s == [s[0]] + s[1..];
    }
  }

  /** `simple_unescape` undoes the escaping of every label. */
  lemma UnescapeEscape(s: string)
    ensures Unescape(Escape(s)) == s
  {
    UnescapeOne(s, {' ', ':', '='}, ' ');
    assert {' ', ':', '='} - {' '} == {':', '='};
    UnescapeOne(s, {':', '='}, ':');
    assert {':', '='} - {':'} == {'='};
    UnescapeOne(s, {'='}, '=');
    assert {'='} - {'='} == {};
    UnescapeBackslashes(s);
  }

  lemma {:induction false} EscapeAppend(a: string, b: string, escaped: set<char>)
    ensures EscapeWith(a + b, escaped) == EscapeWith(a, escaped) + EscapeWith(b, escaped)
    decreases |a|
  {
    if a != [] {
      assert (a + b)[0] == a[0];
      assert (a + b)[1..] == a[1..] + b;
      EscapeAppend(a[1..], b, escaped);
    } else {
      assert a + b == b;
    }
  }

  /** Text without special characters is its own escape. */
  lemma {:induction false} EscapePlain(s: string, escaped: set<char>)
    requires forall i :: 0 <= i < |s| ==> s[i] != '\\' && s[i] !in escaped
    ensures EscapeWith(s, escaped) == s
    decreases |s|
  {
    if s != [] {
      EscapePlain(s[1..], escaped);
    }
  }

  /** No character that the properties format escapes. */
  predicate Plain(s: string) {
    forall i :: 0 <= i < |s| ==> s[i] != '\\' && s[i] !in {' ', ':', '='}
  }

  /** Two plain words around an escaped separator `sep`. */
  lemma UnescapeBetween(a: string, sep: char, b: string)
    requires Plain(a) && Plain(b) && sep in {' ', ':', '=', '\\'}
    ensures Unescape(a + EscapeChar(sep, {' ', ':', '='}) + b) == a + [sep] + b
  {
    var e := {' ', ':', '='};
    assert Escape(a + [sep] + b) == a + EscapeChar(sep, e) + b by {
      EscapeAppend(a + [sep], b, e);
      EscapeAppend(a, [sep], e);
      EscapePlain(a, e);
      EscapePlain(b, e);
      assert [sep][1..] == [];
      assert EscapeWith([sep], e) == EscapeChar(sep, e) + EscapeWith([], e);
      assert EscapeChar(sep, e) + EscapeWith([], e) == EscapeChar(sep, e);
    }
    UnescapeEscape(a + [sep] + b);
  }

  lemma DocWordsPlain()
    ensures Plain("duke") && Plain("sucellus")
  {
  }

  lemma DocWords()
    ensures "duke" + EscapeChar(' ', {' ', ':', '='}) + "sucellus" == "duke\\ sucellus"
    ensures "duke" + " " + "sucellus" == "duke sucellus"
  {
    assert EscapeChar(' ', {' ', ':', '='}) == "\\ ";
  }

  /** The example of `simple_unescape`'s docstring. */
  lemma UnescapeDocExample()
    ensures Unescape("duke\\ sucellus") == "duke sucellus"
  {
    var a, b := "duke", "sucellus";
    assert Unescape(a + EscapeChar(' ', {' ', ':', '='}) + b) == a + " " + b by {
      DocWordsPlain();
      UnescapeBetween(a, ' ', b);
    }
    DocWords();
  }

  /** An escaped backslash comes back as one backslash. */
  lemma UnescapeBackslashExample()
    ensures Unescape("a\\\\b") == "a\\b"
  {
    assert Unescape("a" + EscapeChar('\\', {' ', ':', '='}) + "b") == "a\\b" by {
      UnescapeBetween("a", '\\', "b");
    }
    assert "a" + EscapeChar('\\', {' ', ':', '='}) + "b" == "a\\\\b";
  }
}
