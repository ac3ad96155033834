/** Adjusting the algorithms of a profile to what FIPS mode allows
    (check_ossl_fips_disabled_remove_algorithms of src/swtpm/check_algos.c). */
module FipsProfile {
  import opened Bytes
  import opened Strv

  /** An algorithm to remove, and the prefix of the entry that limits its key size. */
  datatype Disabled = Disabled(name: string, related: Option<string>)

  datatype KeySize = KeySize(keyword: string, minSize: nat)

  const DISABLED := [
    Disabled("camellia", Some("camellia-min-size=")),
    Disabled("tdes", Some("tdes-min-size=")),
    Disabled("rsaes", None),
    Disabled("ecc-nist-p192", None)
  ]

  const ECC := KeySize("ecc-min-size=", 224)
  const RSA := KeySize("rsa-min-size=", 2048)

  // ---- The result as a value ---------------------------------------------------------------

  /** The text in front of the first equals sign is the key of an entry. */
  function EqualsAt(x: string): (r: nat)
    ensures r <= |x| && (r < |x| ==> x[r] == '=') && forall i :: 0 <= i < r ==> x[i] != '='
  {
    if x == [] || x[0] == '=' then 0 else 1 + EqualsAt(x[1..])
  }

  /** algorithms_gencmpstr. */
  function CompareLength(x: string): int {
    var n := EqualsAt(x);
    if n < |x| then n else -1
  }

  function RowRemoved(c: seq<string>, row: Disabled): seq<string> {
    var k := Kept(c, row.name, -1);
    if row.related.Some? then Kept(k, row.related.value, |row.related.value|) else k
  }

  /** `applies` says for each row whether it is to be removed: always when forced, else
      when the algorithm is found to be disabled. */
  function RowsRemoved(c: seq<string>, rows: seq<Disabled>, applies: seq<bool>): seq<string>
    requires |rows| == |applies|
    decreases |rows|
  {
    if rows == [] then c
    else RowsRemoved(if applies[0] then RowRemoved(c, rows[0]) else c, rows[1..], applies[1..])
  }

  predicate HasPrefix(x: string, p: string) { p <= x }

  /** Position of the first entry with this prefix. */
  function FirstWith(c: seq<string>, p: string): (r: Option<nat>)
    ensures r.Some? ==> r.value < |c| && HasPrefix(c[r.value], p)
    ensures forall k :: 0 <= k < (if r.Some? then r.value else |c|) ==> !HasPrefix(c[k], p)
  {
    FirstFrom(c, p, 0)
  }

  function FirstFrom(c: seq<string>, p: string, i: nat): (r: Option<nat>)
    requires i <= |c| && forall k :: 0 <= k < i ==> !HasPrefix(c[k], p)
    ensures r.Some? ==> r.value < |c| && HasPrefix(c[r.value], p)
    ensures forall k :: 0 <= k < (if r.Some? then r.value else |c|) ==> !HasPrefix(c[k], p)
    decreases |c| - i
  {
    if i == |c| then None else if HasPrefix(c[i], p) then Some(i) else FirstFrom(c, p, i + 1)
  }

  /** Set or raise one minimum key size; None if the present one is not a number. */
  function SizeAdjusted(c: seq<string>, k: KeySize): Option<seq<string>> {
    var at := FirstWith(c, k.keyword);
    var entry := k.keyword + Decimal(k.minSize);
    if at.None? then Some(c + [entry])
    else
      var number := Strtoul(c[at.value][|k.keyword|..]);
      if number.range || number.rest != [] then None
      else if number.value >= k.minSize then Some(c)
      else Some(c[at.value := entry])
  }

  /** The whole adjustment; `ecc` and `rsa` say whether those sizes are to be set. */
  function Adjusted(c: seq<string>, applies: seq<bool>, ecc: bool, rsa: bool): Option<seq<string>>
    requires |applies| == |DISABLED|
  {
    var left := Deduped(RowsRemoved(c, DISABLED, applies), CompareLength);
    var first := if ecc then SizeAdjusted(left, ECC) else Some(left);
    if first.None? then None
    else if rsa then SizeAdjusted(first.value, RSA) else first
  }

  // ---- In place -------------------------------------------------------------------------------

  method RemoveRows(a: array<Option<string>>, applies: seq<bool>, ghost c: seq<string>)
    requires Holds(a[..], c) && |applies| == |DISABLED|
    modifies a
    ensures Holds(a[..], RowsRemoved(c, DISABLED, applies))
  {
    ghost var now := c;
    assert DISABLED[0..] == DISABLED && applies[0..] == applies;
    for i := 0 to |DISABLED|
      invariant Holds(a[..], now)
      invariant RowsRemoved(now, DISABLED[i..], applies[i..]) == RowsRemoved(c, DISABLED, applies)
    {
      var row := DISABLED[i];
      assert DISABLED[i..][1..] == DISABLED[i + 1..] && applies[i..][1..] == applies[i + 1..];
      if applies[i] {
        var n := Remove(a, row.name, -1, now);
        if row.related.Some? {
          n := Remove(a, row.related.value, |row.related.value|, Kept(now, row.name, -1));
        }
        now := RowRemoved(now, row);
      }
    }
  }

  /** One round of the loop over the key sizes; appending moves the vector. */
  method AdjustSize(a: array<Option<string>>, k: KeySize, ghost c: seq<string>)
    returns (ok: bool, a': array<Option<string>>)
    requires Holds(a[..], c)
    modifies a
    ensures ok == SizeAdjusted(c, k).Some?
    ensures ok ==> Holds(a'[..], SizeAdjusted(c, k).value)
    ensures a' == a || fresh(a')
  {
    ok, a' := true, a;
    var at := FindPrefix(a, k.keyword, |k.keyword|, c);
    FirstWithIs(c, k.keyword, at);
    var entry := k.keyword + Decimal(k.minSize);
    if at.Some? {
      assert a[..][at.value] == Some(c[at.value]);
      var number := Strtoul(a[at.value].value[|k.keyword|..]);
      if number.range || number.rest != [] {
        ok := false;
      } else if number.value < k.minSize {
        a[at.value] := Some(entry);
      }
    } else {
      var n := Length(a, c);
      a' := new Option<string>[n + 2](i requires 0 <= i < n + 2 reads a requires n < a.Length =>
        if i < n then a[i] else if i == n then Some(entry) else None);
      assert forall i :: 0 <= i < n ==> a'[..][i] == a[..][i];
    }
  }

  lemma FirstWithIs(c: seq<string>, p: string, at: Option<nat>)
    requires at.Some? ==> at.value < |c| && Take(c[at.value], |p|) == Take(p, |p|)
    requires forall k :: 0 <= k < (if at.Some? then at.value else |c|) ==> Take(c[k], |p|) != Take(p, |p|)
    ensures FirstWith(c, p) == at
  {
    forall k | 0 <= k < |c|
      ensures Take(c[k], |p|) == Take(p, |p|) <==> HasPrefix(c[k], p)
    {
      TakeIsPrefix(c[k], p);
    }
  }

  lemma TakeIsPrefix(x: string, p: string)
    ensures Take(x, |p|) == Take(p, |p|) <==> HasPrefix(x, p)
  {
  }

  /** g_strv_length. */
  method Length(a: array<Option<string>>, ghost c: seq<string>) returns (n: nat)
    requires Holds(a[..], c)
    ensures n == |c|
  {
    n := 0;
    while a[n].Some?
      invariant n <= |c|
      decreases |c| - n
    {
      assert a[..][n] == Some(c[n]);
      n := n + 1;
    }
    assert a[..][n].None?;
  }

  method RemoveAlgorithms(a: array<Option<string>>, applies: seq<bool>, ecc: bool, rsa: bool, ghost c: seq<string>)
    returns (ok: bool, a': array<Option<string>>)
    requires Holds(a[..], c) && |applies| == |DISABLED|
    modifies a
    ensures ok == Adjusted(c, applies, ecc, rsa).Some?
    ensures ok ==> Holds(a'[..], Adjusted(c, applies, ecc, rsa).value)
  {
    ok, a' := true, a;
    RemoveRows(a, applies, c);
    ghost var now := RowsRemoved(c, DISABLED, applies);
    var n := Dedup(a, CompareLength, now);
    now := Deduped(now, CompareLength);
    if ecc {
      ok, a' := AdjustSize(a, ECC, now);
      if !ok {
        return;
      }
      now := SizeAdjusted(now, ECC).value;
    }
    if rsa {
      ok, a' := AdjustSize(a', RSA, now);
    }
  }

  // ---- What the result looks like -----------------------------------------------------------------

  function Filter(c: seq<string>, p: string -> bool): seq<string> {
    if c == [] then []
    else if p(c[0]) then [c[0]] + Filter(c[1..], p)
    else Filter(c[1..], p)
  }

  predicate Removes(row: Disabled, x: string) {
    x == row.name || (row.related.Some? && HasPrefix(x, row.related.value))
  }

  /** Entries that must not be left when the adjustment is forced. */
  predicate Forbidden(x: string) {
    exists row :: row in DISABLED && Removes(row, x)
  }

  predicate Sized(x: string) {
    HasPrefix(x, ECC.keyword) || HasPrefix(x, RSA.keyword)
  }

  /** There is exactly one entry for the key size, and its value is large enough. */
  ghost predicate OneEntry(c: seq<string>, k: KeySize) {
    exists i :: 0 <= i < |c| && OnlyAt(c, k.keyword, i) && Strtoul(c[i][|k.keyword|..]).value >= k.minSize
  }

  predicate OnlyAt(c: seq<string>, p: string, i: nat)
    requires i < |c|
  {
    HasPrefix(c[i], p) && forall j :: 0 <= j < |c| && j != i ==> !HasPrefix(c[j], p)
  }

  predicate AtMostOne(c: seq<string>, p: string) {
    forall i, j :: 0 <= i < j < |c| ==> !(HasPrefix(c[i], p) && HasPrefix(c[j], p))
  }

  lemma {:induction false} FilterTwice(c: seq<string>, p: string -> bool, q: string -> bool, r: string -> bool)
    requires forall x :: r(x) <==> p(x) && q(x)
    ensures Filter(Filter(c, p), q) == Filter(c, r)
  {
    if c != [] {
      FilterTwice(c[1..], p, q, r);
      if p(c[0]) {
        assert ([c[0]] + Filter(c[1..], p))[1..] == Filter(c[1..], p);
      }
    }
  }

  lemma {:induction false} KeptIsFilter(c: seq<string>, pattern: string, len: int, p: string -> bool)
    requires forall x :: p(x) <==> !Matches(x, pattern, len)
    ensures Kept(c, pattern, len) == Filter(c, p)
  {
    if c != [] {
      KeptIsFilter(c[1..], pattern, len, p);
    }
  }

  lemma RowIsFilter(c: seq<string>, row: Disabled)
    requires row.related.Some? ==> row.related.value != []
    ensures RowRemoved(c, row) == Filter(c, x => !Removes(row, x))
  {
    KeptIsFilter(c, row.name, -1, x => x != row.name);
    if row.related.Some? {
      var rel := row.related.value;
      forall x: string
        ensures Matches(x, rel, |rel|) <==> HasPrefix(x, rel)
      {
        MatchesIsPrefix(x, rel, |rel|);
        assert rel[..|rel|] == rel;
      }
      KeptIsFilter(Kept(c, row.name, -1), rel, |rel|, x => !HasPrefix(x, rel));
      FilterTwice(c, x => x != row.name, x => !HasPrefix(x, rel), x => !Removes(row, x));
    } else {
      FilterSame(c, x => x != row.name, x => !Removes(row, x));
    }
  }

  lemma {:induction false} FilterSame(c: seq<string>, p: string -> bool, q: string -> bool)
    requires forall x :: p(x) <==> q(x)
    ensures Filter(c, p) == Filter(c, q)
  {
    if c != [] {
      FilterSame(c[1..], p, q);
    }
  }

  /** Rows that all apply remove what at least one of them removes. */
  lemma {:induction false} RowsAreFilter(c: seq<string>, rows: seq<Disabled>, applies: seq<bool>)
    requires |rows| == |applies| && forall i :: 0 <= i < |rows| ==> applies[i]
    requires forall row :: row in rows && row.related.Some? ==> row.related.value != []
    ensures RowsRemoved(c, rows, applies) == Filter(c, x => !exists row :: row in rows && Removes(row, x))
    decreases |rows|
  {
    if rows == [] {
      FilterAll(c, x => !exists row :: row in rows && Removes(row, x));
    } else {
      RowIsFilter(c, rows[0]);
      RowsAreFilter(RowRemoved(c, rows[0]), rows[1..], applies[1..]);
      assert rows == [rows[0]] + rows[1..];
      FilterTwice(c, x => !Removes(rows[0], x), x => !exists row :: row in rows[1..] && Removes(row, x),
                  x => !exists row :: row in rows && Removes(row, x));
    }
  }

  lemma {:induction false} FilterAll(c: seq<string>, p: string -> bool)
    requires forall x :: p(x)
    ensures Filter(c, p) == c
  {
    if c != [] {
      FilterAll(c[1..], p);
    }
  }

  lemma {:induction false} FilterIn(c: seq<string>, p: string -> bool, x: string)
    ensures x in Filter(c, p) <==> x in c && p(x)
  {
    if c != [] {
      FilterIn(c[1..], p, x);
      assert c == [c[0]] + c[1..];
    }
  }

  /** Changing entries that a filter drops anyway does not change what it keeps. */
  lemma {:induction false} FilterUpdate(c: seq<string>, i: nat, e: string, p: string -> bool)
    requires i < |c| && !p(c[i]) && !p(e)
    ensures Filter(c[i := e], p) == Filter(c, p)
  {
    if i == 0 {
      assert c[0 := e][1..] == c[1..];
    } else {
      FilterUpdate(c[1..], i - 1, e, p);
      assert c[i := e][1..] == c[1..][i - 1 := e];
    }
  }

  lemma {:induction false} FilterAppend(c: seq<string>, e: string, p: string -> bool)
    requires !p(e)
    ensures Filter(c + [e], p) == Filter(c, p)
  {
    if c == [] {
      assert (c + [e])[1..] == [];
    } else {
      FilterAppend(c[1..], e, p);
      assert (c + [e])[1..] == c[1..] + [e];
    }
  }

  /** A key and its equals sign. */
  predicate IsKeyword(p: string) {
    |p| > 1 && p[|p| - 1] == '=' && forall i :: 0 <= i < |p| - 1 ==> p[i] != '='
  }

  /** After deduplication at most one entry starts with a given key and equals sign. */
  lemma DedupedAtMostOne(c: seq<string>, p: string)
    requires IsKeyword(p)
    ensures AtMostOne(Deduped(c, CompareLength), p)
  {
    var d := Deduped(c, CompareLength);
    forall i, j | 0 <= i < j < |d|
      ensures !(HasPrefix(d[i], p) && HasPrefix(d[j], p))
    {
      DedupedHasNoDuplicates(c, CompareLength, i);
      if HasPrefix(d[i], p) {
        KeyOfPrefix(d[i], p);
        MatchesIsPrefix(d[j], d[i], |p| - 1);
        assert p == d[i][..|p|] && d[i][..|p| - 1] == p[..|p| - 1];
      }
    }
  }

  lemma KeyOfPrefix(x: string, p: string)
    requires IsKeyword(p) && HasPrefix(x, p)
    ensures CompareLength(x) == |p| - 1
  {
    assert forall i :: 0 <= i < |p| ==> x[i] == p[i];
    var e := EqualsAt(x);
    assert x[|p| - 1] == '=';
  }

  lemma SizeAdjustedHasOne(c: seq<string>, k: KeySize)
    requires AtMostOne(c, k.keyword) && k.minSize <= ULONG_MAX && SizeAdjusted(c, k).Some?
    ensures OneEntry(SizeAdjusted(c, k).value, k)
  {
    var r := SizeAdjusted(c, k).value;
    var at := FirstWith(c, k.keyword);
    var entry := k.keyword + Decimal(k.minSize);
    StrtoulOfDecimal(k.minSize);
    assert entry[|k.keyword|..] == Decimal(k.minSize);
    var i := if at.Some? then at.value else |c|;
    assert OnlyAt(r, k.keyword, i);
  }

  /** Adjusting one key size leaves the entries for another, and all entries for none. */
  lemma SizeAdjustedElsewhere(c: seq<string>, k: KeySize, p: string -> bool)
    requires SizeAdjusted(c, k).Some? && forall x :: HasPrefix(x, k.keyword) ==> !p(x)
    ensures Filter(SizeAdjusted(c, k).value, p) == Filter(c, p)
  {
    var at := FirstWith(c, k.keyword);
    var entry := k.keyword + Decimal(k.minSize);
    assert HasPrefix(entry, k.keyword);
    if at.None? {
      FilterAppend(c, entry, p);
    } else {
      FilterUpdate(c, at.value, entry, p);
    }
  }

  /** Prefixes that no string can both have. */
  predicate Apart(p: string, q: string) {
    p != [] && q != [] && p[0] != q[0]
  }

  lemma AtMostOneElsewhere(c: seq<string>, k: KeySize, p: string)
    requires SizeAdjusted(c, k).Some? && Apart(k.keyword, p) && AtMostOne(c, p)
    ensures AtMostOne(SizeAdjusted(c, k).value, p)
  {
    assert !HasPrefix(k.keyword + Decimal(k.minSize), p);
  }

  lemma OneEntryElsewhere(c: seq<string>, k: KeySize, other: KeySize)
    requires SizeAdjusted(c, k).Some? && Apart(k.keyword, other.keyword) && OneEntry(c, other)
    ensures OneEntry(SizeAdjusted(c, k).value, other)
  {
    assert !HasPrefix(k.keyword + Decimal(k.minSize), other.keyword);
    var i :| 0 <= i < |c| && OnlyAt(c, other.keyword, i) && Strtoul(c[i][|other.keyword|..]).value >= other.minSize;
    var r := SizeAdjusted(c, k).value;
    assert FirstWith(c, k.keyword) != Some(i) && r[i] == c[i];
    forall j | 0 <= j < |r| && j != i
      ensures !HasPrefix(r[j], other.keyword)
    {
      AdjustedEntry(c, k, j);
    }
    assert OnlyAt(r, other.keyword, i);
  }

  lemma AdjustedEntry(c: seq<string>, k: KeySize, j: nat)
    requires SizeAdjusted(c, k).Some? && j < |SizeAdjusted(c, k).value|
    ensures var x := SizeAdjusted(c, k).value[j]; x == k.keyword + Decimal(k.minSize) || (j < |c| && x == c[j])
  {
  }

  lemma SizeEntryIsAllowed(x: string)
    requires Sized(x)
    ensures !Forbidden(x)
  {
    assert HasPrefix(x, ECC.keyword) ==> x[0] == 'e' && x[4] == 'm';
    assert HasPrefix(x, RSA.keyword) ==> x[0] == 'r' && x[3] == '-';
  }

  /** An entry of the adjusted list is new, or was there before. */
  lemma SizeAdjustedIn(c: seq<string>, k: KeySize, x: string)
    requires SizeAdjusted(c, k).Some? && x in SizeAdjusted(c, k).value
    ensures x in c || HasPrefix(x, k.keyword)
  {
    assert HasPrefix(k.keyword + Decimal(k.minSize), k.keyword);
  }

  const ALL := [true, true, true, true]

  /** The list before the key sizes are set: allowed entries without a later match. */
  ghost function Survivors(c: seq<string>): seq<string> {
    Deduped(Filter(c, x => !Forbidden(x)), CompareLength)
  }

  lemma ForcedRemoval(c: seq<string>)
    ensures Deduped(RowsRemoved(c, DISABLED, ALL), CompareLength) == Survivors(c)
    ensures forall x :: x in Survivors(c) ==> x in c && !Forbidden(x)
    ensures AtMostOne(Survivors(c), ECC.keyword) && AtMostOne(Survivors(c), RSA.keyword)
  {
    RowsAreFilter(c, DISABLED, ALL);
    FilterSame(c, x => !exists row :: row in DISABLED && Removes(row, x), x => !Forbidden(x));
    forall x: string | x in Survivors(c)
      ensures x in c && !Forbidden(x)
    {
      DedupedIn(Filter(c, x => !Forbidden(x)), CompareLength, x);
      FilterIn(c, x => !Forbidden(x), x);
    }
    KeywordKeys();
    DedupedAtMostOne(Filter(c, x => !Forbidden(x)), ECC.keyword);
    DedupedAtMostOne(Filter(c, x => !Forbidden(x)), RSA.keyword);
  }

  lemma KeywordKeys()
    ensures IsKeyword(ECC.keyword) && IsKeyword(RSA.keyword)
  {
  }

  /** After a forced adjustment that succeeds, no disabled algorithm and no entry for its
      key size is left; there is exactly one entry for each of the two key sizes, with a
      value at or above the minimum; and the other entries are exactly, in order, those
      that are allowed and have no later entry matching their key. */
  lemma ForcedAdjustment(c: seq<string>, r: seq<string>)
    requires Adjusted(c, ALL, true, true) == Some(r)
    ensures forall x :: x in r ==> !Forbidden(x)
    ensures OneEntry(r, ECC) && OneEntry(r, RSA)
    ensures Filter(r, x => !Sized(x)) == Filter(Survivors(c), x => !Sized(x))
  {
    ForcedRemoval(c);
    var left := Survivors(c);
    var first := SizeAdjusted(left, ECC).value;
    SizeAdjustedHasOne(left, ECC);
    AtMostOneElsewhere(left, ECC, RSA.keyword);
    SizeAdjustedHasOne(first, RSA);
    OneEntryElsewhere(first, RSA, ECC);
    SizeAdjustedElsewhere(left, ECC, x => !Sized(x));
    SizeAdjustedElsewhere(first, RSA, x => !Sized(x));
    forall x | x in r
      ensures !Forbidden(x)
    {
      SizeAdjustedIn(first, RSA, x);
      if Sized(x) {
        SizeEntryIsAllowed(x);
      } else {
        SizeAdjustedIn(left, ECC, x);
      }
    }
  }

  predicate Unreadable(x: string, k: KeySize) {
    && HasPrefix(x, k.keyword)
    && var number := Strtoul(x[|k.keyword|..]); number.range || number.rest != []
  }

  /** The adjustment fails exactly if a surviving entry for one of the two key sizes is
      not a number. */
  lemma ForcedAdjustmentFailsIff(c: seq<string>)
    ensures Adjusted(c, ALL, true, true).None? <==>
            exists x :: x in Survivors(c) && (Unreadable(x, ECC) || Unreadable(x, RSA))
  {
    ForcedRemoval(c);
    var left := Survivors(c);
    SizeAdjustedFailsIff(left, ECC);
    SizeAdjustedFailsIff(left, RSA);
    var first := SizeAdjusted(left, ECC);
    if first.Some? {
      AtMostOneElsewhere(left, ECC, RSA.keyword);
      SizeAdjustedFailsIff(first.value, RSA);
      forall x: string
        ensures Unreadable(x, RSA) ==> (x in first.value <==> x in left)
      {
        FilterIn(left, y => HasPrefix(y, RSA.keyword), x);
        FilterIn(first.value, y => HasPrefix(y, RSA.keyword), x);
        SizeAdjustedElsewhere(left, ECC, y => HasPrefix(y, RSA.keyword));
      }
    }
  }

  lemma SizeAdjustedFailsIff(c: seq<string>, k: KeySize)
    requires AtMostOne(c, k.keyword)
    ensures SizeAdjusted(c, k).None? <==> exists x :: x in c && Unreadable(x, k)
  {
    var at := FirstWith(c, k.keyword);
    forall x | x in c && HasPrefix(x, k.keyword)
      ensures at.Some? && x == c[at.value]
    {
      var i :| 0 <= i < |c| && c[i] == x;
      assert at.Some?;
      assert at.value <= i;
    }
    assert SizeAdjusted(c, k).None? ==> c[at.value] in c && Unreadable(c[at.value], k);
  }
}
