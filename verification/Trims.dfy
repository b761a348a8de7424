/** What `String.prototype.trim` returns, said of the string alone. */
module Trims {
  import opened Lex
  import opened Parse

  /** `t` is `s` without the white space at its ends. */
  ghost predicate Trimmed(s: string, t: string) {
    exists a: nat, b: nat ::
      && a <= b <= |s| && t == s[a..b]
      && (forall k :: 0 <= k < a ==> IsSpace(s[k])) && (forall k :: b <= k < |s| ==> IsSpace(s[k]))
      && (t != "" ==> !IsSpace(t[0]) && !IsSpace(t[|t| - 1]))
  }

  lemma {:induction false} TrimStartIs(s: string) returns (a: nat)
    ensures a <= |s| && TrimStart(s) == s[a..] && (forall k :: 0 <= k < a ==> IsSpace(s[k])) && (a < |s| ==> !IsSpace(s[a]))
  {
    hide IsSpace;
    if s != "" && IsSpace(s[0]) {
      var b := TrimStartIs(s[1..]);
      a := b + 1;
      assert s[1..][b..] == s[a..];
      assert forall k :: 0 < k < a ==> s[k] == s[1..][k - 1];
    } else {
      a := 0;
    }
  }

  lemma {:induction false} TrimEndIs(s: string) returns (b: nat)
    ensures b <= |s| && TrimEnd(s) == s[..b] && (forall k :: b <= k < |s| ==> IsSpace(s[k])) && (b > 0 ==> !IsSpace(s[b - 1]))
  {
    hide IsSpace;
    if s != "" && IsSpace(s[|s| - 1]) {
      b := TrimEndIs(s[..|s| - 1]);
      assert s[..|s| - 1][..b] == s[..b];
    } else {
      b := |s|;
    }
  }

  lemma TrimIs(s: string)
    ensures Trimmed(s, Trim(s))
  {
    hide IsSpace, TrimStart, TrimEnd;
    var a := TrimStartIs(s);
    var u := s[a..];
    var b := TrimEndIs(u);
    assert Trim(s) == s[a..a + b];
    forall k | a + b <= k < |s|
      ensures IsSpace(s[k])
    {
      assert s[k] == u[k - a];
    }
    if b > 0 {
      assert !IsSpace(s[a + b - 1]) by { assert u[b - 1] == s[a + b - 1]; }
    }
  }

  lemma TrimmedOnce(s: string, t: string, u: string)
    requires Trimmed(s, t) && Trimmed(s, u)
    ensures t == u
  {
    hide IsSpace;
  }

  lemma TrimExact(s: string, t: string)
    ensures Trimmed(s, t) <==> t == Trim(s)
  {
    hide Trimmed, Trim;
    TrimIs(s);
    if Trimmed(s, t) {
      TrimmedOnce(s, t, Trim(s));
    }
  }
}
