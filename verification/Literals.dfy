/** String literals, as `Bart.g4` spells them: characters and escapes between quotation marks. What the lexer
    takes for one, and what `unquote` (app/frontend/src/lib/bart/parse.ts) reads in it, is held to that. */
module Literals {
  import opened Lex
  import opened Munch
  import opened Attrs

  /** What a literal is made of: a character on its own, or any character after a backslash. */
  datatype Unit = Plain(c: char) | Escaped(c: char)

  predicate IsUnit(u: Unit) { u.Plain? ==> u.c != '"' && u.c != '\\' }

  predicate AreUnits(us: seq<Unit>) { forall u :: u in us ==> IsUnit(u) }

  function UnitText(u: Unit): string { if u.Plain? then [u.c] else ['\\', u.c] }

  /** An escape stands for its character, unless that ends a line, when the backslash stays. */
  function UnitValue(u: Unit): string {
    if u.Escaped? && u.c in ['\n', '\r', '\U{2028}', '\U{2029}'] then ['\\', u.c] else [u.c]
  }

  function Spelled(us: seq<Unit>): string {
    if us == [] then "" else UnitText(us[0]) + Spelled(us[1..])
  }

  function Meant(us: seq<Unit>): string {
    if us == [] then "" else UnitValue(us[0]) + Meant(us[1..])
  }

  lemma UnitSkipped(text: string, i: nat, u: Unit, rest: string)
    requires IsUnit(u) && i <= |text| && text[i..] == UnitText(u) + rest
    ensures i + |UnitText(u)| <= |text| && text[i + |UnitText(u)|..] == rest
    ensures StringEnd(text, i) == StringEnd(text, i + |UnitText(u)|)
  {
    assert text[i] == text[i..][0] && text[i + |UnitText(u)|..] == text[i..][|UnitText(u)|..];
  }

  lemma Closes(text: string, i: nat, rest: string)
    requires i <= |text| && text[i..] == "\"" + rest
    ensures StringEnd(text, i) == Some(i + 1)
  {
    assert text[i] == text[i..][0];
  }

  lemma SpelledMore(u: Unit, us: seq<Unit>)
    ensures Spelled([u] + us) == UnitText(u) + Spelled(us)
  {
    assert ([u] + us)[1..] == us;
  }

  /** The scan for the closing mark finds it after the units, and no sooner. */
  lemma {:induction false} SpelledCloses(text: string, i: nat, us: seq<Unit>, rest: string)
    requires AreUnits(us) && i <= |text| && text[i..] == Spelled(us) + ("\"" + rest)
    ensures StringEnd(text, i) == Some(i + |Spelled(us)| + 1)
    decreases |us|
  {
    hide StringEnd, UnitText, IsUnit, Spelled;
    if us == [] {
      SpelledNone();
      Closes(text, i, rest);
    } else {
      var u, tail := us[0], Spelled(us[1..]) + ("\"" + rest);
      assert us == [u] + us[1..];
      SpelledMore(u, us[1..]);
      assert text[i..] == UnitText(u) + tail;
      UnitSkipped(text, i, u, tail);
      SpelledCloses(text, i + |UnitText(u)|, us[1..], rest);
    }
  }

  lemma SpelledNone()
    ensures Spelled([]) == ""
  {
  }

  /** The unit that the scan takes next. */
  lemma UnitAt(text: string, i: nat) returns (u: Unit)
    requires i < |text| && StringEnd(text, i).Some? && text[i] != '"'
    ensures IsUnit(u) && i + |UnitText(u)| <= |text| && text[i..i + |UnitText(u)|] == UnitText(u) && |UnitText(u)| > 0
    ensures StringEnd(text, i) == StringEnd(text, i + |UnitText(u)|)
  {
    u := if text[i] == '\\' then Escaped(text[i + 1]) else Plain(text[i]);
  }

  lemma {:induction false} UnitsTo(text: string, i: nat) returns (us: seq<Unit>)
    requires i <= |text| && StringEnd(text, i).Some?
    ensures AreUnits(us) && StringEnd(text, i) == Some(i + |Spelled(us)| + 1)
    ensures text[i..i + |Spelled(us)|] == Spelled(us)
    decreases |text| - i
  {
    StringOpen(text, i);
    hide StringEnd, UnitText, IsUnit, Spelled;
    SpelledNone();
    if text[i] == '"' {
      us := [];
    } else {
      var u := UnitAt(text, i);
      var n := i + |UnitText(u)|;
      var more := UnitsTo(text, n);
      us := [u] + more;
      SpelledMore(u, more);
      assert text[i..n + |Spelled(more)|] == text[i..n] + text[n..n + |Spelled(more)|];
    }
  }

  lemma StringOpen(text: string, i: nat)
    requires i <= |text| && StringEnd(text, i).Some?
    ensures i < |text| && (text[i] == '"' ==> StringEnd(text, i) == Some(i + 1))
  {
  }

  lemma {:induction false} UnescapeSpelled(us: seq<Unit>)
    requires AreUnits(us)
    ensures Unescape(Spelled(us)) == Meant(us)
    decreases |us|
  {
    if us == [] {
    } else {
      var u, t := us[0], Spelled(us[1..]);
      assert u in us;
      UnescapeSpelled(us[1..]);
      UnescapeUnit(u, t);
    }
  }

  lemma UnescapeUnit(u: Unit, rest: string)
    requires IsUnit(u)
    ensures Unescape(UnitText(u) + rest) == UnitValue(u) + Unescape(rest)
  {
    var t := UnitText(u) + rest;
    if u.Escaped? {
      assert t[2..] == rest && t[1..] == [u.c] + rest;
      if IsLineTerminator(u.c) {
        assert t[1..][1..] == rest;
        assert Unescape(t) == ['\\'] + Unescape(t[1..]) && Unescape(t[1..]) == [u.c] + Unescape(rest);
      }
    } else {
      assert t[1..] == rest;
    }
  }

  /** A text is one string literal exactly if it is units between quotation marks. */
  lemma LiteralExact(text: string)
    ensures IsString(text) <==> exists us :: AreUnits(us) && text == "\"" + Spelled(us) + "\""
  {
    hide StringEnd, Spelled, AreUnits;
    if IsString(text) {
      var us := UnitsTo(text, 1);
      StringLast(text);
      assert text == text[..1] + text[1..|text| - 1] + text[|text| - 1..];
    }
    if us :| AreUnits(us) && text == "\"" + Spelled(us) + "\"" {
      assert text[1..] == Spelled(us) + ("\"" + "");
      SpelledCloses(text, 1, us, "");
    }
  }

  lemma StringLast(text: string)
    requires IsString(text)
    ensures |text| >= 2 && text[|text| - 1] == '"'
  {
  }

  /** And it is read as what its units stand for, whoever wrote it. */
  lemma UnquoteExact(us: seq<Unit>)
    requires AreUnits(us)
    ensures Unquote("\"" + Spelled(us) + "\"") == Meant(us)
  {
    var text := "\"" + Spelled(us) + "\"";
    assert text[1..|text| - 1] == Spelled(us);
    UnescapeSpelled(us);
  }
}
