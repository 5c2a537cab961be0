/** The RV subject grammar of include/sassrv/ev_rv.h: segment counting and the
    inbox / restricted subject tests. A subject is a string of '.'-separated segments. */
module Subject {
  import opened Base

  /** The '.'-separated segments of `s`; the reference definition for the counting below. */
  function Tokens(s: string): (r: seq<string>)
    ensures |r| >= 1
    decreases |s|
  {
    if s == [] then [[]]
    else
      var t := Tokens(s[1..]);
      if s[0] == '.' then [[]] + t else [[s[0]] + t[0]] + t[1..]
  }

  /** The segments put back together with '.' between them. */
  function Join(ts: seq<string>): string
    requires |ts| >= 1
  {
    if |ts| == 1 then ts[0] else ts[0] + "." + Join(ts[1..])
  }

  /** Number of '.' bytes in `s`. */
  function DotCount(s: string): nat
  {
    if s == [] then 0 else (if s[0] == '.' then 1 else 0) + DotCount(s[1..])
  }

  lemma {:induction false} JoinTokens(s: string)
    ensures Join(Tokens(s)) == s
    decreases |s|
  {
    if s != [] {
      JoinTokens(s[1..]);
      var t := Tokens(s[1..]);
      if s[0] != '.' && |t| > 1 {
        assert Join([[s[0]] + t[0]] + t[1..]) == [s[0]] + t[0] + "." + Join(t[1..]);
        assert Join(t) == t[0] + "." + Join(t[1..]);
      }
    }
  }

  lemma {:induction false} TokensHaveNoDots(s: string)
    ensures forall i :: 0 <= i < |Tokens(s)| ==> '.' !in Tokens(s)[i]
    decreases |s|
  {
    if s != [] {
      TokensHaveNoDots(s[1..]);
    }
  }

  /** There is one segment more than there are '.' bytes. */
  lemma {:induction false} TokensCount(s: string)
    ensures |Tokens(s)| == 1 + DotCount(s)
    decreases |s|
  {
    if s != [] {
      TokensCount(s[1..]);
    }
  }

  lemma DotCountAppend(s: string, c: char)
    ensures DotCount(s + [c]) == DotCount(s) + (if c == '.' then 1 else 0)
    decreases |s|
  {
    if s != [] {
      assert (s + [c])[1..] == s[1..] + [c];
      DotCountAppend(s[1..], c);
    }
  }

  /** `count_segments`: scans the subject for '.' bytes, counting in a 16-bit register
      that starts at 1. The result is the number of segments, modulo 2^16. */
  method CountSegments(value: string) returns (n: uint16)
    ensures n == |Tokens(value)| % U16
  {
    n := 1;
    var i := 0;
    while i < |value|
      invariant 0 <= i <= |value|
      invariant n == (1 + DotCount(value[..i])) % U16
    {
      DotCountAppend(value[..i], value[i]);
      assert value[..i + 1] == value[..i] + [value[i]];
      if value[i] == '.' {
        n := (n + 1) % U16;
      }
      i := i + 1;
    }
    assert value[..i] == value;
    TokensCount(value);
  }

  const InboxPrefix: string := "_INBOX."
  const SystemPrefix: string := "_RV."

  /** `is_inbox_subject`: the subject begins with "_INBOX." and has at least one byte after it. */
  predicate IsInboxSubject(sub: string)
  {
    |sub| > 7 && sub[..7] == InboxPrefix
  }

  /** `is_restricted_subject`: the subject begins with "_RV." followed by at least one byte,
      or it is an inbox subject. */
  predicate IsRestrictedSubject(sub: string)
  {
    (|sub| > 4 && sub[..4] == SystemPrefix) || IsInboxSubject(sub)
  }

  /** A subject's first segment is `w` (a word without '.') exactly when the subject
      begins with `w` followed by '.'. */
  lemma {:induction false} FirstSegment(s: string, w: string)
    requires '.' !in w
    ensures (|s| > |w| && s[..|w| + 1] == w + ".") <==> (|Tokens(s)| >= 2 && Tokens(s)[0] == w)
    decreases |w|
  {
    if w == [] {
      if s != [] && s[0] != '.' {
        assert Tokens(s)[0] != [];
      }
    } else if s != [] {
      if s[0] == w[0] {
        FirstSegment(s[1..], w[1..]);
        if |s| > |w| && s[..|w| + 1] == w + "." {
          assert s[1..][..|w[1..]| + 1] == s[..|w| + 1][1..];
          assert (w + ".")[1..] == w[1..] + ".";
        }
        if |s[1..]| > |w[1..]| && s[1..][..|w[1..]| + 1] == w[1..] + "." {
          assert s[..|w| + 1] == [s[0]] + s[1..][..|w[1..]| + 1];
        }
        var t := Tokens(s[1..]);
        if |t| >= 2 && t[0] == w[1..] {
          assert Tokens(s)[0] == [s[0]] + t[0] == w;
        }
        if |Tokens(s)| >= 2 && Tokens(s)[0] == w {
          assert [s[0]] + t[0] == w;
          assert t[0] == w[1..];
        }
      } else {
        if |s| > |w| {
          assert s[..|w| + 1][0] == s[0];
        }
        if s[0] != '.' {
          assert Tokens(s)[0][0] == s[0];
        } else {
          assert Tokens(s)[0] == [];
        }
      }
    }
  }

  /** The inbox test in terms of segments: the first segment is "_INBOX" and the
      subject is longer than the bare prefix "_INBOX.". */
  lemma InboxBySegments(sub: string)
    ensures IsInboxSubject(sub) <==> (|Tokens(sub)| >= 2 && Tokens(sub)[0] == "_INBOX" && sub != InboxPrefix)
  {
    FirstSegment(sub, "_INBOX");
    if |sub| > 7 {
      assert sub[..7] == sub[..|"_INBOX"| + 1];
    }
  }

  /** The restricted test in terms of segments. */
  lemma RestrictedBySegments(sub: string)
    ensures IsRestrictedSubject(sub) <==>
      (|Tokens(sub)| >= 2 && ((Tokens(sub)[0] == "_RV" && sub != SystemPrefix) || (Tokens(sub)[0] == "_INBOX" && sub != InboxPrefix)))
  {
    InboxBySegments(sub);
    SystemBySegments(sub);
  }

  /** The "_RV." half of the restricted test: the first segment is "_RV" and the subject
      is longer than the bare prefix. */
  lemma SystemBySegments(sub: string)
    ensures (|sub| > 4 && sub[..4] == SystemPrefix) <==> (|Tokens(sub)| >= 2 && Tokens(sub)[0] == "_RV" && sub != SystemPrefix)
  {
    FirstSegment(sub, "_RV");
    if |sub| > 4 {
      assert sub[..4] == sub[..|"_RV"| + 1];
    }
  }

  /** The bare prefixes themselves are neither inbox nor system subjects. */
  lemma BarePrefixesAreUnrestricted()
    ensures !IsInboxSubject(InboxPrefix) && !IsRestrictedSubject(SystemPrefix)
    ensures IsInboxSubject("_INBOX.x") && IsRestrictedSubject("_RV.x")
  {
    assert "_INBOX.x"[..7] == InboxPrefix;
    assert "_RV.x"[..4] == SystemPrefix;
    assert SystemPrefix[..4] == SystemPrefix;
  }

  /** Every inbox subject is restricted. */
  lemma InboxIsRestricted(sub: string)
    ensures IsInboxSubject(sub) ==> IsRestrictedSubject(sub)
  {
  }
}
