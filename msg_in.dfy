/** The service-prefix part of the message envelope `RvMsgIn` (include/sassrv/ev_rv.h).
    The struct lays out `prefix[]` directly before `sub_buf[64]`, and the subject pointer
    `sub` points at `sub_buf`; `set_prefix` writes `_<service>.` at the END of `prefix[]`,
    so the prefix and the subject read as one string. The model keeps both buffers in
    one array: the prefix region is `[0, prefixSize)`, `sub_buf` is the 64 bytes after it. */
module MsgIn {
  import opened Base

  const SubBufSize: nat := 64

  /** The part of a service name that `set_prefix` copies: a trailing '.' is dropped. */
  function ServiceBody(pref: string): (b: string)
    requires |pref| > 0
    ensures |b| == |pref| || |b| == |pref| - 1
    ensures b == pref[..|b|]
  {
    if pref[|pref| - 1] == '.' then pref[..|pref| - 1] else pref
  }

  /** The prefix `set_prefix` builds for a non-empty service name in a buffer of `size` bytes:
      '_' unless the name starts with one, the name without a trailing '.', then '.'.
      A name too long for the buffer keeps its last `size - 2` bytes. */
  function ServicePrefix(pref: string, size: nat): (p: string)
    requires |pref| > 0 && size >= 3
    ensures 1 <= |p| <= size
    ensures p[|p| - 1] == '.'
    ensures pref[0] != '_' ==> p[0] == '_'
  {
    (if pref[0] != '_' then "_" else "") + Kept(ServiceBody(pref), size) + "."
  }

  /** The bytes of the service body that fit: its last `size - 2` at most. */
  function Kept(b: string, size: nat): (k: string)
    requires size >= 2
    ensures |k| <= size - 2 && |k| <= |b|
  {
    if |b| > size - 2 then b[|b| - (size - 2)..] else b
  }

  /** "7500" and "_7500." name the same service prefix. */
  lemma ServicePrefixExamples()
    ensures ServicePrefix("7500", 40) == "_7500."
    ensures ServicePrefix("_7500.", 40) == "_7500."
    ensures ServicePrefix("_7500", 40) == "_7500."
  {
  }

  /** Short service names are kept whole: the prefix is '_'-led, ends in '.', and stripping
      those two decorations gives back the name (without its trailing '.'). */
  lemma ServicePrefixShape(pref: string, size: nat)
    requires |pref| > 0 && size >= 3 && |pref| <= size - 2
    ensures var p := ServicePrefix(pref, size);
      p[0] == '_' && p[|p| - 1] == '.' &&
      (if pref[0] == '_' then p[..|p| - 1] else p[1..|p| - 1]) == ServiceBody(pref)
  {
    var b := ServiceBody(pref);
    if pref[0] == '_' {
      assert b[0] == pref[0];
    }
  }

  /** The index of the first read of `pref` in `set_prefix` as written: the loop body
      `prefix[--i] = pref[--j]` runs once before `j == 0` is tested, with `j` a `uint16_t`. */
  function SetPrefixFirstReadAsWritten(pref: string): (idx: uint16)
    requires 0 < |pref| < U16
  {
    var j := |pref| - (if pref[|pref| - 1] == '.' then 1 else 0);
    (j - 1) % U16
  }

  /** As written, `set_prefix` reads outside the service name exactly when the name is ".". */
  lemma SetPrefixReadsOutOfBounds(pref: string)
    requires 0 < |pref| < U16
    ensures SetPrefixFirstReadAsWritten(pref) >= |pref| <==> pref == "."
  {
    if pref == "." {
      assert SetPrefixFirstReadAsWritten(pref) == U16 - 1;
    }
  }

  /** `RvMsgIn`, restricted to the subject and its service prefix. */
  class MsgIn {
    const prefixSize: nat
    const buf: array<char>
    var prefixLen: uint16
    var sublen: uint16
    var replylen: uint16
    var suffixLen: uint32

    ghost predicate Valid()
      reads this
    {
      && 9 <= prefixSize < U16
      && buf.Length == prefixSize + SubBufSize
      && prefixLen <= prefixSize
      && sublen <= SubBufSize
    }

    /** `prefix_start()`: the prefix, which ends where `sub_buf` begins. */
    function PrefixStart(): (p: seq<char>)
      reads this, buf
      requires Valid()
      ensures |p| == prefixLen
    {
      buf[prefixSize - prefixLen..prefixSize]
    }

    /** The subject held in `sub_buf`. */
    function Subject(): (s: seq<char>)
      reads this, buf
      requires Valid()
      ensures |s| == sublen
    {
      buf[prefixSize..prefixSize + sublen]
    }

    /** `RvMsgIn()`; `serviceMax` stands for `MAX_RV_SERVICE_LEN`. */
    constructor (serviceMax: nat)
      requires 1 <= serviceMax && serviceMax + 8 < U16
      ensures Valid() && fresh(buf)
      ensures prefixSize == serviceMax + 8
      ensures prefixLen == 0 && sublen == 0 && replylen == 0 && suffixLen == 0
    {
      prefixSize := serviceMax + 8;
      buf := new char[serviceMax + 8 + SubBufSize];
      prefixLen, sublen, replylen, suffixLen := 0, 0, 0, 0;
    }

    /** `init()`: the envelope is empty again, and so is the prefix. */
    method Init()
      requires Valid()
      modifies this
      ensures Valid()
      ensures prefixLen == 0 && sublen == 0 && replylen == 0 && suffixLen == 0
    {
      prefixLen, sublen, replylen, suffixLen := 0, 0, 0, 0;
    }

    /** `set_prefix(pref, len)`, with the copy loop testing `j == 0` before its first read
        (the form that does not read outside a service name "."). */
    method SetPrefix(pref: seq<char>)
      requires Valid() && |pref| < U16
      modifies this, buf
      ensures Valid()
      ensures sublen == old(sublen) && replylen == old(replylen) && suffixLen == old(suffixLen)
      ensures |pref| == 0 ==> prefixLen == 0 && buf[..] == old(buf[..])
      ensures |pref| > 0 ==> PrefixStart() == ServicePrefix(pref, prefixSize)
      ensures buf[prefixSize..] == old(buf[prefixSize..])
    {
      if |pref| == 0 {
        prefixLen := 0;
        return;
      }
      var b := ServiceBody(pref);
      var i := CopyBody(b);
      if pref[0] != '_' {
        i := PutUnderscore(i);
      }
      prefixLen := prefixSize - i;
    }

    /** The copy loop of `set_prefix`: '.' at the end of the prefix region, then the service
        body from its last byte backwards, stopping at index 1 or when the body is used up. */
    method CopyBody(b: seq<char>) returns (i: nat)
      requires Valid()
      modifies buf
      ensures 1 <= i < prefixSize
      ensures buf[i..prefixSize] == Kept(b, prefixSize) + "."
      ensures buf[prefixSize..] == old(buf[prefixSize..])
    {
      i := prefixSize - 1;
      buf[i] := '.';
      var j := |b|;
      while j > 0 && i > 1
        invariant 1 <= i <= prefixSize - 1
        invariant 0 <= j <= |b|
        invariant prefixSize - 1 - i == |b| - j
        invariant buf[i..prefixSize] == b[j..] + "."
        invariant buf[prefixSize..] == old(buf[prefixSize..])
      {
        ghost var t := buf[i..prefixSize];
        i, j := i - 1, j - 1;
        buf[i] := b[j];
        assert buf[i..prefixSize] == [b[j]] + t;
      }
      assert b[j..] == Kept(b, prefixSize);
    }

    /** `prefix[--i] = '_'`: the '_' goes right before the copied body. */
    method PutUnderscore(i: nat) returns (k: nat)
      requires Valid() && 1 <= i < prefixSize
      modifies buf
      ensures k == i - 1
      ensures buf[k..prefixSize] == "_" + old(buf[i..prefixSize])
      ensures buf[prefixSize..] == old(buf[prefixSize..])
    {
      k := i - 1;
      buf[k] := '_';
      assert buf[k..prefixSize] == [buf[k]] + buf[i..prefixSize];
    }

    /** `pre_subject(str, sz)`: the prefixed subject starts `prefixLen` bytes before `sub_buf`. */
    method PreSubject() returns (start: nat, sz: nat)
      requires Valid()
      ensures start + sz <= buf.Length
      ensures sz == sublen + prefixLen
      ensures buf[start..start + sz] == PrefixStart() + Subject()
    {
      start := prefixSize - prefixLen;
      sz := sublen + prefixLen;
      assert buf[start..start + sz] == buf[start..prefixSize] + buf[prefixSize..start + sz];
    }

    /** `cat_pre_subject(str, suf, suflen)`: the prefix, then `suf`, then a NUL. */
    method CatPreSubject(str: array<char>, suf: seq<char>) returns (sz: nat)
      requires Valid() && str != buf
      requires str.Length > prefixLen + |suf|
      modifies str
      ensures sz == prefixLen + |suf|
      ensures str[..sz] == PrefixStart() + suf
      ensures str[sz] == '\0'
      ensures forall x :: sz < x < str.Length ==> str[x] == old(str[x])
    {
      var p := PrefixStart();
      var n := 0;
      while n < |p|
        invariant 0 <= n <= |p|
        invariant str[..n] == p[..n]
        invariant forall x :: n <= x < str.Length ==> str[x] == old(str[x])
      {
        str[n] := p[n];
        n := n + 1;
      }
      var m := 0;
      while m < |suf|
        invariant 0 <= m <= |suf|
        invariant str[..|p| + m] == p + suf[..m]
        invariant forall x :: |p| + m <= x < str.Length ==> str[x] == old(str[x])
      {
        str[|p| + m] := suf[m];
        m := m + 1;
        assert str[..|p| + m] == str[..|p| + m - 1] + [suf[m - 1]];
      }
      sz := |p| + |suf|;
      str[sz] := '\0';
      assert suf[..m] == suf;
    }
  }
}
