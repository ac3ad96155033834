/** NULL-terminated string vectors, filtered in place (src/swtpm/utils.c), and the number
    parsing of the C library that their users rely on. */
module Strv {
  import opened Bytes

  // ---- Comparison ------------------------------------------------------------------------

  function Take(s: string, n: nat): string {
    if |s| <= n then s else s[..n]
  }

  /** The test that strv_remove and strv_dedup share: strcmp for a negative length, strncmp
      for a positive one, and never for zero. */
  predicate Matches(x: string, pattern: string, len: int) {
    || (len < 0 && x == pattern)
    || (len > 0 && Take(x, len) == Take(pattern, len))
  }

  /** With a length within the pattern, it is the first `len` characters that count. */
  lemma MatchesIsPrefix(x: string, pattern: string, len: nat)
    requires 0 < len <= |pattern|
    ensures Matches(x, pattern, len) <==> pattern[..len] <= x
  {
    assert Take(pattern, len) == pattern[..len];
  }

  // ---- Filters as values -------------------------------------------------------------------

  /** The entries that do not match, in order. */
  function Kept(c: seq<string>, pattern: string, len: int): (r: seq<string>)
    ensures |r| <= |c|
  {
    if c == [] then []
    else if Matches(c[0], pattern, len) then Kept(c[1..], pattern, len)
    else [c[0]] + Kept(c[1..], pattern, len)
  }

  /** How an entry is compared with later ones: the length of its key. */
  type KeyLength = string -> int

  predicate HasLaterMatch(c: seq<string>, i: nat, key: KeyLength)
    requires i < |c|
  {
    exists j :: i < j < |c| && Matches(c[j], c[i], key(c[i]))
  }

  /** Every entry without a later match, in order. */
  function Deduped(c: seq<string>, key: KeyLength): (r: seq<string>)
    ensures |r| <= |c|
  {
    if c == [] then []
    else if HasLaterMatch(c, 0, key) then Deduped(c[1..], key)
    else [c[0]] + Deduped(c[1..], key)
  }

  lemma {:induction false} KeptIff(c: seq<string>, pattern: string, len: int, x: string)
    ensures x in Kept(c, pattern, len) <==> x in c && !Matches(x, pattern, len)
  {
    if c != [] {
      KeptIff(c[1..], pattern, len, x);
      assert c == [c[0]] + c[1..];
    }
  }

  /** No entry that is left has a match behind it. */
  lemma {:induction false} DedupedHasNoDuplicates(c: seq<string>, key: KeyLength, i: nat)
    requires i < |Deduped(c, key)|
    ensures !HasLaterMatch(Deduped(c, key), i, key)
  {
    var r := Deduped(c, key);
    var tail := Deduped(c[1..], key);
    forall x: string
      ensures x in tail ==> x in c[1..]
    {
      DedupedIn(c[1..], key, x);
    }
    if HasLaterMatch(c, 0, key) {
      DedupedHasNoDuplicates(c[1..], key, i);
    } else if i > 0 {
      DedupedHasNoDuplicates(c[1..], key, i - 1);
      assert forall j :: 0 <= j < |tail| ==> r[j + 1] == tail[j];
    } else {
      forall j | 0 < j < |r|
        ensures !Matches(r[j], r[0], key(r[0]))
      {
        assert r[j] == tail[j - 1] && r[j] in c[1..];
        var k :| 0 <= k < |c[1..]| && c[1..][k] == r[j];
        assert c[k + 1] == r[j];
      }
    }
  }

  lemma {:induction false} DedupedIn(c: seq<string>, key: KeyLength, x: string)
    ensures x in Deduped(c, key) ==> x in c
  {
    if c != [] {
      DedupedIn(c[1..], key, x);
      assert c == [c[0]] + c[1..];
    }
  }

  // ---- In place --------------------------------------------------------------------------------

  /** The array holds these strings and then NULL. */
  predicate Holds(a: seq<Option<string>>, c: seq<string>) {
    && |c| < |a| && a[|c|] == None
    && forall i :: 0 <= i < |c| ==> a[i] == Some(c[i])
  }

  function Without(c: seq<string>, i: nat): seq<string>
    requires i < |c|
  {
    c[..i] + c[i + 1..]
  }

  /** The copying loop that closes a gap, up to and including the terminator. */
  method CloseGap(a: array<Option<string>>, i: nat, ghost c: seq<string>)
    requires Holds(a[..], c) && i < |c|
    modifies a
    ensures Holds(a[..], Without(c, i))
  {
    ghost var was := a[..];
    var j := i + 1;
    a[j - 1] := a[j];
    while a[j].Some?
      invariant i < j <= |c|
      invariant forall k :: 0 <= k < i ==> a[k] == was[k]
      invariant forall k :: i <= k < j ==> a[k] == was[k + 1]
      invariant forall k :: j <= k < a.Length ==> a[k] == was[k]
      decreases |c| - j
    {
      j := j + 1;
      a[j - 1] := a[j];
    }
    GapClosed(was, a[..], i, j, c);
  }

  lemma GapClosed(was: seq<Option<string>>, now: seq<Option<string>>, i: nat, j: nat, c: seq<string>)
    requires Holds(was, c) && i < |c| && j == |c| && |now| == |was|
    requires forall k :: 0 <= k < i ==> now[k] == was[k]
    requires forall k :: i <= k < j ==> now[k] == was[k + 1]
    ensures Holds(now, Without(c, i))
  {
    var r := Without(c, i);
    forall k | 0 <= k < |r|
      ensures now[k] == Some(r[k])
    {
      assert r[k] == if k < i then c[k] else c[k + 1];
    }
    assert now[|r|] == was[|r| + 1];
  }

  lemma KeptStep(c: seq<string>, i: nat, pattern: string, len: int)
    requires i < |c|
    ensures c[..i] + Kept(c[i..], pattern, len) ==
            if Matches(c[i], pattern, len) then Without(c, i)[..i] + Kept(Without(c, i)[i..], pattern, len)
            else c[..i + 1] + Kept(c[i + 1..], pattern, len)
  {
    assert c[i..][1..] == c[i + 1..];
    assert Without(c, i)[..i] == c[..i] && Without(c, i)[i..] == c[i + 1..];
    assert c[..i + 1] == c[..i] + [c[i]];
  }

  lemma DedupedStep(c: seq<string>, i: nat, key: KeyLength)
    requires i < |c|
    ensures c[..i] + Deduped(c[i..], key) ==
            if HasLaterMatch(c, i, key) then Without(c, i)[..i] + Deduped(Without(c, i)[i..], key)
            else c[..i + 1] + Deduped(c[i + 1..], key)
  {
    LaterMatchOfTail(c, i, key);
    assert c[i..][1..] == c[i + 1..];
    assert Without(c, i)[..i] == c[..i] && Without(c, i)[i..] == c[i + 1..];
    assert c[..i + 1] == c[..i] + [c[i]];
  }

  /** strv_remove. */
  method Remove(a: array<Option<string>>, toremove: string, len: int, ghost c: seq<string>) returns (num: nat)
    requires Holds(a[..], c)
    modifies a
    ensures Holds(a[..], Kept(c, toremove, len))
    ensures num == |c| - |Kept(c, toremove, len)|
  {
    var i := 0;
    num := 0;
    ghost var now := c;
    assert now[0..] == now;
    while a[i].Some?
      invariant i <= |now| && Holds(a[..], now) && num + |now| == |c|
      invariant now[..i] + Kept(now[i..], toremove, len) == Kept(c, toremove, len)
      decreases |now| - i
    {
      assert a[..][i] == Some(now[i]);
      KeptStep(now, i, toremove, len);
      if Matches(a[i].value, toremove, len) {
        CloseGap(a, i, now);
        now := Without(now, i);
        num := num + 1;
      } else {
        i := i + 1;
      }
    }
    assert a[..][i].None? && i == |now| && now[i..] == [];
  }

  /** The inner loop of strv_dedup: is there a match behind entry `i`? */
  method FindLaterMatch(a: array<Option<string>>, i: nat, len: int, ghost c: seq<string>, ghost key: KeyLength)
    returns (found: bool)
    requires Holds(a[..], c) && i < |c| && len == key(c[i])
    ensures found == HasLaterMatch(c, i, key)
  {
    var j := i + 1;
    while a[j].Some?
      invariant i < j <= |c|
      invariant forall k :: i < k < j ==> !Matches(c[k], c[i], len)
      decreases |c| - j
    {
      assert a[..][j] == Some(c[j]);
      if Matches(a[j].value, a[i].value, len) {
        return true;
      }
      j := j + 1;
    }
    found := false;
  }

  /** strv_dedup with a function for the key. */
  method Dedup(a: array<Option<string>>, key: KeyLength, ghost c: seq<string>) returns (num: nat)
    requires Holds(a[..], c)
    modifies a
    ensures Holds(a[..], Deduped(c, key))
    ensures num == |c| - |Deduped(c, key)|
  {
    var i := 0;
    num := 0;
    ghost var now := c;
    assert now[0..] == now;
    while a[i].Some?
      invariant i <= |now| && Holds(a[..], now) && num + |now| == |c|
      invariant now[..i] + Deduped(now[i..], key) == Deduped(c, key)
      decreases |now| - i
    {
      assert a[..][i] == Some(now[i]);
      var found := FindLaterMatch(a, i, key(a[i].value), now, key);
      DedupedStep(now, i, key);
      if found {
        CloseGap(a, i, now);
        now := Without(now, i);
        num := num + 1;
      } else {
        i := i + 1;
      }
    }
    assert a[..][i].None? && i == |now| && now[i..] == [];
  }

  lemma LaterMatchOfTail(c: seq<string>, i: nat, key: KeyLength)
    requires i < |c|
    ensures HasLaterMatch(c[i..], 0, key) <==> HasLaterMatch(c, i, key)
  {
    var t := c[i..];
    if HasLaterMatch(c, i, key) {
      var j :| i < j < |c| && Matches(c[j], c[i], key(c[i]));
      assert t[j - i] == c[j];
    }
    if HasLaterMatch(t, 0, key) {
      var j :| 0 < j < |t| && Matches(t[j], t[0], key(t[0]));
      assert c[i + j] == t[j];
    }
  }

  /** strv_strncmp: the first entry that agrees in `len` characters. */
  method FindPrefix(a: array<Option<string>>, s: string, len: nat, ghost c: seq<string>) returns (r: Option<nat>)
    requires Holds(a[..], c)
    ensures r.Some? ==> r.value < |c| && Take(c[r.value], len) == Take(s, len)
    ensures forall k :: 0 <= k < (if r.Some? then r.value else |c|) ==> Take(c[k], len) != Take(s, len)
  {
    var i := 0;
    while a[i].Some?
      invariant i <= |c| && forall k :: 0 <= k < i ==> Take(c[k], len) != Take(s, len)
      decreases |c| - i
    {
      assert a[..][i] == Some(c[i]);
      if Take(a[i].value, len) == Take(s, len) {
        return Some(i);
      }
      i := i + 1;
    }
    r := None;
  }

  // ---- Numbers -------------------------------------------------------------------------------------

  const ULONG_MAX := 0xFFFF_FFFF_FFFF_FFFF

  predicate IsSpace(c: char) {
    c == ' ' || '\t' <= c <= '\r'
  }

  predicate IsDigit(c: char) {
    '0' <= c <= '9'
  }

  function SkipSpaces(s: string): (r: string) {
    if s != [] && IsSpace(s[0]) then SkipSpaces(s[1..]) else s
  }

  /** The number of leading digits. */
  function Digits(s: string): (r: nat)
    ensures r <= |s| && (forall i :: 0 <= i < r ==> IsDigit(s[i])) && (r < |s| ==> !IsDigit(s[r]))
  {
    if s != [] && IsDigit(s[0]) then 1 + Digits(s[1..]) else 0
  }

  function ValueOf(ds: string): nat
    requires forall i :: 0 <= i < |ds| ==> IsDigit(ds[i])
  {
    if ds == [] then 0
    else
      var last := ds[|ds| - 1];
      assert IsDigit(last);
      ValueOf(ds[..|ds| - 1]) * 10 + (last as int - '0' as int)
  }

  datatype Number = Number(value: nat, rest: string, range: bool)

  /** strtoul in base 10 with 64-bit longs: white space, a sign, digits.  Without digits
      nothing is consumed; a minus sign negates modulo 2^64. */
  function Strtoul(s: string): (r: Number)
    ensures r.value <= ULONG_MAX
  {
    var t := SkipSpaces(s);
    var negative := t != [] && t[0] == '-';
    var u := if t != [] && (t[0] == '-' || t[0] == '+') then t[1..] else t;
    var n := Digits(u);
    if n == 0 then Number(0, s, false)
    else
      var v := ValueOf(u[..n]);
      if v > ULONG_MAX then Number(ULONG_MAX, u[n..], true)
      else Number(if negative && v > 0 then ULONG_MAX + 1 - v else v, u[n..], false)
  }

  /** The %u conversion. */
  function Decimal(n: nat): (r: string)
    ensures r != [] && forall i :: 0 <= i < |r| ==> IsDigit(r[i])
  {
    if n < 10 then ['0' + n as char] else Decimal(n / 10) + ['0' + (n % 10) as char]
  }

  lemma {:induction false} ValueOfDecimal(n: nat)
    ensures ValueOf(Decimal(n)) == n
  {
    var r := Decimal(n);
    if n < 10 {
      assert r[..0] == [];
    } else {
      ValueOfDecimal(n / 10);
      assert r[..|r| - 1] == Decimal(n / 10);
    }
  }

  lemma {:induction false} AllDigits(s: string)
    requires forall i :: 0 <= i < |s| ==> IsDigit(s[i])
    ensures Digits(s) == |s|
  {
    if s != [] {
      AllDigits(s[1..]);
    }
  }

  /** What %u prints, strtoul reads back. */
  lemma StrtoulOfDecimal(n: nat)
    requires n <= ULONG_MAX
    ensures Strtoul(Decimal(n)) == Number(n, "", false)
  {
    var s := Decimal(n);
    AllDigits(s);
    ValueOfDecimal(n);
    assert SkipSpaces(s) == s && s[..|s|] == s;
  }
}
