/** The brace-aware option tokenizer of src/swtpm/options.c. */
module Options {
  import opened Bytes

  // ---- Tokens as values --------------------------------------------------------------

  /** The character does not occur in the first `n`. */
  predicate Free(s: string, c: char, n: nat)
    requires n <= |s|
  {
    forall j :: 0 <= j < n ==> s[j] != c
  }

  /** strchr. */
  function IndexOf(s: string, c: char): (r: Option<nat>)
    ensures r.Some? ==> r.value < |s| && s[r.value] == c && Free(s, c, r.value)
    ensures r.None? ==> Free(s, c, |s|)
  {
    IndexFrom(s, c, 0)
  }

  function IndexFrom(s: string, c: char, i: nat): (r: Option<nat>)
    requires i <= |s| && Free(s, c, i)
    ensures r.Some? ==> r.value < |s| && s[r.value] == c && Free(s, c, r.value)
    ensures r.None? ==> Free(s, c, |s|)
    decreases |s| - i
  {
    if i == |s| then None else if s[i] == c then Some(i) else IndexFrom(s, c, i + 1)
  }

  /** The position of the brace that closes `depth` open ones, searching from `i`. */
  function Closing(s: string, i: nat, depth: nat): (r: Option<nat>)
    requires i <= |s| && depth > 0
    ensures r.Some? ==> i <= r.value < |s|
    decreases |s| - i
  {
    if i == |s| then None
    else if s[i] == '{' then Closing(s, i + 1, depth + 1)
    else if s[i] != '}' then Closing(s, i + 1, depth)
    else if depth == 1 then Some(i)
    else Closing(s, i + 1, depth - 1)
  }

  datatype Parsed = Token(tok: string, rest: Option<string>) | UnterminatedMap | UnexpectedCharacter

  /** option_parse_token on what is left of the string.  Without a comma there is no
      look at braces at all: the comparison of the two pointers discards the equals sign
      when there is no comma behind it. */
  function Parse(s: string): (r: Parsed)
    ensures r.Token? && r.rest.Some? ==> |r.rest.value| < |s|
  {
    var equals, comma := IndexOf(s, '='), IndexOf(s, ',');
    if comma.None? then Token(s, None)
    else if equals.Some? && equals.value < comma.value && s[equals.value + 1] == '{' then
      var eom := Closing(s, equals.value + 2, 1);
      if eom.None? then UnterminatedMap
      else if eom.value + 1 == |s| then Token(s, None)
      else if s[eom.value + 1] != ',' then UnexpectedCharacter
      else Token(s[..eom.value + 1], Some(s[eom.value + 2..]))
    else Token(s[..comma.value], Some(s[comma.value + 1..]))
  }

  /** The token loop of options_parse; None is an error. */
  function Tokenize(s: string): (r: Option<seq<string>>)
    ensures r.Some? ==> r.value != []
    decreases |s|
  {
    var r := Parse(s);
    if !r.Token? then None
    else if r.rest.None? then Some([r.tok])
    else
      var more := Tokenize(r.rest.value);
      if more.None? then None else Some([r.tok] + more.value)
  }

  function Join(ts: seq<string>): string
    requires ts != []
  {
    if |ts| == 1 then ts[0] else ts[0] + "," + Join(ts[1..])
  }

  /** The value begins with a brace. */
  predicate HasMap(t: string) {
    var equals := IndexOf(t, '=');
    equals.Some? && equals.value + 1 < |t| && t[equals.value + 1] == '{'
  }

  /** A token that a comma may follow: without commas and with a value that does not begin
      with a brace, or name={...} with braces that first close at the last character. */
  predicate WellFormed(t: string) {
    if HasMap(t) then
      var equals := IndexOf(t, '=').value;
      Free(t, ',', equals) && Closing(t, equals + 2, 1) == Some(|t| - 1)
    else Free(t, ',', |t|)
  }

  // ---- Prefixes ------------------------------------------------------------------------

  lemma IndexIs(s: string, c: char, k: nat)
    requires k < |s| && s[k] == c && Free(s, c, k)
    ensures IndexOf(s, c) == Some(k)
  {
  }

  lemma IndexIsNone(s: string, c: char)
    requires Free(s, c, |s|)
    ensures IndexOf(s, c) == None
  {
  }

  /** What is found in a string is found in every longer one. */
  lemma IndexOfPrefix(t: string, u: string, c: char)
    requires IndexOf(t, c).Some?
    ensures IndexOf(t + u, c) == IndexOf(t, c)
  {
    IndexIs(t + u, c, IndexOf(t, c).value);
  }

  lemma {:induction false} ClosingPrefix(t: string, u: string, i: nat, depth: nat)
    requires i <= |t| && depth > 0
    ensures Closing(t, i, depth).Some? ==> Closing(t + u, i, depth) == Closing(t, i, depth)
    ensures var m := Closing(t + u, i, depth); m.Some? && m.value < |t| ==> Closing(t, i, depth) == m
    decreases |t| - i
  {
    if i < |t| {
      assert (t + u)[i] == t[i];
      if t[i] == '{' {
        ClosingPrefix(t, u, i + 1, depth + 1);
      } else if t[i] != '}' {
        ClosingPrefix(t, u, i + 1, depth);
      } else if depth > 1 {
        ClosingPrefix(t, u, i + 1, depth - 1);
      }
    }
  }

  /** How many more braces open than close between two positions. */
  function Balance(s: string, i: nat, j: nat): int
    requires i <= j <= |s|
    decreases j - i
  {
    if i == j then 0
    else (if s[i] == '{' then 1 else if s[i] == '}' then -1 else 0) + Balance(s, i + 1, j)
  }

  /** Braces stay open up to `m` and close there. */
  ghost predicate FirstClosesAt(s: string, i: nat, depth: nat, m: nat)
    requires i <= |s|
  {
    && i <= m < |s| && depth + Balance(s, i, m + 1) == 0
    && forall k :: i <= k <= m ==> depth + Balance(s, i, k) > 0
  }

  /** The brace counter finds the place where the balance first vanishes. */
  lemma {:induction false} ClosingIff(s: string, i: nat, depth: nat, m: nat)
    requires i <= |s| && depth > 0
    ensures Closing(s, i, depth) == Some(m) <==> FirstClosesAt(s, i, depth, m)
    decreases |s| - i
  {
    if i < |s| {
      assert Balance(s, i + 1, i + 1) == 0;
      var depth' := depth + Balance(s, i, i + 1);
      assert depth == depth + Balance(s, i, i);
      forall k | i < k <= |s|
        ensures depth + Balance(s, i, k) == depth' + Balance(s, i + 1, k)
      {
      }
      if depth' > 0 {
        ClosingIff(s, i + 1, depth', m);
        if FirstClosesAt(s, i, depth, m) {
          var next := i + 1;
          forall k | next <= k <= m
            ensures depth' + Balance(s, next, k) > 0
          {
            assert depth + Balance(s, i, k) > 0;
          }
          assert FirstClosesAt(s, next, depth', m);
        }
      } else {
        assert FirstClosesAt(s, i, depth, i);
      }
    }
  }

  // ---- One token -------------------------------------------------------------------------

  /** The tokenizer stops at a comma exactly behind a well-formed token. */
  lemma ParseSplitsIff(s: string, t: string, rest: string)
    ensures Parse(s) == Token(t, Some(rest)) <==> s == t + "," + rest && WellFormed(t)
  {
    if Parse(s) == Token(t, Some(rest)) {
      SplitIsWellFormed(s, t, rest);
    }
    if s == t + "," + rest && WellFormed(t) {
      if HasMap(t) {
        MapIsSplit(t, rest);
      } else {
        PlainIsSplit(t, rest);
      }
    }
  }

  lemma SplitIsWellFormed(s: string, t: string, rest: string)
    requires Parse(s) == Token(t, Some(rest))
    ensures s == t + "," + rest && WellFormed(t)
  {
    var equals, comma := IndexOf(s, '='), IndexOf(s, ',').value;
    if equals.Some? && equals.value < comma && s[equals.value + 1] == '{' {
      Rejoin(s, Closing(s, equals.value + 2, 1).value + 1);
      SplitMap(t, s[|t|..], equals.value, comma);
    } else {
      Rejoin(s, comma);
      SplitPlain(t, s[|t|..]);
    }
  }

  lemma Rejoin(s: string, k: nat)
    requires k < |s| && s[k] == ','
    ensures s == s[..k] + s[k..] == s[..k] + "," + s[k + 1..]
  {
  }

  lemma SplitMap(t: string, u: string, equals: nat, comma: nat)
    requires IndexOf(t + u, '=') == Some(equals) && IndexOf(t + u, ',') == Some(comma)
    requires equals < comma && equals + 1 < |t| && t[equals + 1] == '{'
    requires Closing(t + u, equals + 2, 1) == Some(|t| - 1)
    ensures WellFormed(t)
  {
    assert forall j :: 0 <= j < |t| ==> (t + u)[j] == t[j];
    IndexIs(t, '=', equals);
    ClosingPrefix(t, u, equals + 2, 1);
  }

  lemma SplitPlain(t: string, u: string)
    requires u != [] && u[0] == ',' && Free(t, ',', |t|)
    requires var equals := IndexOf(t + u, '=');
             !(equals.Some? && equals.value < |t| && (t + u)[equals.value + 1] == '{')
    ensures WellFormed(t)
  {
    if IndexOf(t, '=').Some? {
      IndexOfPrefix(t, u, '=');
    }
  }

  lemma PlainIsSplit(t: string, rest: string)
    requires !HasMap(t) && Free(t, ',', |t|)
    ensures Parse(t + "," + rest) == Token(t, Some(rest))
  {
    var s := t + "," + rest;
    assert s[..|t|] == t && s[|t| + 1..] == rest;
    IndexIs(s, ',', |t|);
    if IndexOf(t, '=').Some? {
      assert s == t + ("," + rest);
      IndexOfPrefix(t, "," + rest, '=');
    } else {
      assert forall j :: 0 <= j < |t| ==> s[j] == t[j];
    }
  }

  lemma MapIsSplit(t: string, rest: string)
    requires HasMap(t) && WellFormed(t)
    ensures Parse(t + "," + rest) == Token(t, Some(rest))
  {
    var s, u := t + "," + rest, "," + rest;
    assert s == t + u && s[..|t|] == t && s[|t| + 1..] == rest;
    IndexOfPrefix(t, u, '=');
    ClosingPrefix(t, u, IndexOf(t, '=').value + 2, 1);
    assert IndexOf(s, ',').Some? by {
      assert s[|t|] == ',';
    }
  }

  /** The tokenizer takes all that is left exactly if it has no comma or is a map whose
      braces first close at the end. */
  lemma ParseEndsIff(s: string, t: string)
    ensures Parse(s) == Token(t, None) <==> s == t && (Free(t, ',', |t|) || WellFormed(t))
  {
    if Free(s, ',', |s|) {
      IndexIsNone(s, ',');
    }
  }

  // ---- All tokens --------------------------------------------------------------------------

  /** Tokens in the form that joining and tokenizing preserve. */
  predicate Tokens(ts: seq<string>) {
    && ts != []
    && (forall i :: 0 <= i < |ts| - 1 ==> WellFormed(ts[i]))
    && (WellFormed(ts[|ts| - 1]) || Free(ts[|ts| - 1], ',', |ts[|ts| - 1]|))
  }

  lemma TokensTail(ts: seq<string>)
    requires |ts| > 1
    ensures Tokens(ts) <==> WellFormed(ts[0]) && Tokens(ts[1..])
  {
    var tail := ts[1..];
    assert forall i :: 0 <= i < |tail| ==> tail[i] == ts[i + 1];
    if WellFormed(ts[0]) && Tokens(tail) {
      forall i | 0 <= i < |ts| - 1
        ensures WellFormed(ts[i])
      {
        assert i > 0 ==> WellFormed(tail[i - 1]);
      }
    }
  }

  /** Tokenizing and joining with commas undo each other. */
  lemma {:induction false} TokenizeIff(s: string, ts: seq<string>)
    ensures Tokenize(s) == Some(ts) <==> Tokens(ts) && s == Join(ts)
    decreases |s|
  {
    if |ts| == 1 {
      ParseEndsIff(s, ts[0]);
      assert ts == [ts[0]];
    } else if |ts| > 1 {
      TokensTail(ts);
      var r := Parse(s);
      ParseSplitsIff(s, ts[0], Join(ts[1..]));
      if r.Token? && r.rest.Some? {
        ParseSplitsIff(s, r.tok, r.rest.value);
        TokenizeIff(r.rest.value, ts[1..]);
        assert ts == [ts[0]] + ts[1..];
      }
    }
  }

  // ---- In place ------------------------------------------------------------------------------

  const NUL := '\0'

  /** The index of the terminator of the string that starts at `i`. */
  function End(b: seq<char>, i: nat): (r: nat)
    requires i <= |b|
    ensures i <= r <= |b| && (r < |b| ==> b[r] == NUL) && forall k :: i <= k < r ==> b[k] != NUL
    decreases |b| - i
  {
    if i == |b| || b[i] == NUL then i else End(b, i + 1)
  }

  function StringAt(b: seq<char>, i: nat): string
    requires i <= |b|
  {
    b[i..End(b, i)]
  }

  predicate Terminated(b: seq<char>, i: nat) {
    i < |b| && End(b, i) < |b|
  }

  lemma EndIs(b: seq<char>, i: nat, e: nat)
    requires i <= e < |b| && b[e] == NUL && forall k :: i <= k < e ==> b[k] != NUL
    ensures End(b, i) == e
  {
  }

  /** Writing a terminator splits a string in two. */
  lemma SplitString(b: seq<char>, i: nat, k: nat)
    requires Terminated(b, i) && i <= k < End(b, i)
    ensures var b' := b[k := NUL];
            && StringAt(b', i) == StringAt(b, i)[..k - i]
            && Terminated(b', k + 1) && StringAt(b', k + 1) == StringAt(b, i)[k + 1 - i..]
  {
    var b' := b[k := NUL];
    EndIs(b', i, k);
    EndIs(b', k + 1, End(b, i));
  }

  method Strchr(buf: array<char>, str: nat, c: char) returns (r: Option<nat>)
    requires Terminated(buf[..], str) && c != NUL
    ensures var i := IndexOf(StringAt(buf[..], str), c);
            r == if i.Some? then Some(str + i.value) else None
  {
    ghost var b := buf[..];
    ghost var s := StringAt(b, str);
    var k := str;
    while buf[k] != NUL
      invariant str <= k <= End(b, str) && Free(s, c, k - str)
      decreases End(b, str) - k
    {
      assert s[k - str] == buf[k];
      if buf[k] == c {
        IndexIs(s, c, k - str);
        return Some(k);
      }
      k := k + 1;
    }
    IndexIsNone(s, c);
    r := None;
  }

  /** The loop that counts braces from the one at `open`. */
  method FindClosing(buf: array<char>, str: nat, open: nat) returns (eom: Option<nat>)
    requires Terminated(buf[..], str) && str <= open < End(buf[..], str)
    ensures var m := Closing(StringAt(buf[..], str), open + 1 - str, 1);
            eom == if m.Some? then Some(str + m.value) else None
  {
    ghost var b := buf[..];
    ghost var s := StringAt(b, str);
    var count, i := 1, open + 1;
    eom := None;
    while buf[i] != NUL && eom.None?
      invariant open < i <= End(b, str)
      invariant eom.None? ==> count > 0 && Closing(s, i - str, count) == Closing(s, open + 1 - str, 1)
      invariant eom.Some? ==> Closing(s, open + 1 - str, 1) == Some(eom.value - str) && str <= eom.value
      decreases End(b, str) - i
    {
      assert s[i - str] == buf[i];
      if buf[i] == '{' {
        count := count + 1;
      } else if buf[i] == '}' {
        count := count - 1;
        if count == 0 {
          eom := Some(i);
        }
      }
      i := i + 1;
    }
  }

  /** What option_parse_token leaves behind: the token at `str` and the rest at the save
      pointer; nothing in front of `str` changes. */
  ghost predicate Parses(before: seq<char>, after: seq<char>, str: nat, ok: bool, saveptr: Option<nat>)
    requires Terminated(before, str)
  {
    var p := Parse(StringAt(before, str));
    && ok == p.Token?
    && |after| == |before| && after[..str] == before[..str]
    && (ok ==>
          && StringAt(after, str) == p.tok
          && (saveptr.Some? <==> p.rest.Some?)
          && (saveptr.Some? ==>
                && str < saveptr.value && Terminated(after, saveptr.value)
                && StringAt(after, saveptr.value) == p.rest.value))
  }

  lemma TakesAll(b: seq<char>, str: nat)
    requires Terminated(b, str) && Parse(StringAt(b, str)) == Token(StringAt(b, str), None)
    ensures Parses(b, b, str, true, None)
  {
  }

  lemma SplitsAt(b: seq<char>, str: nat, k: nat)
    requires Terminated(b, str) && str <= k < End(b, str)
    requires var s := StringAt(b, str);
             Parse(s) == Token(s[..k - str], Some(s[k + 1 - str..]))
    ensures Parses(b, b[k := NUL], str, true, Some(k + 1))
  {
    SplitString(b, str, k);
  }

  method ParseToken(buf: array<char>, str: nat) returns (ok: bool, saveptr: Option<nat>)
    requires Terminated(buf[..], str)
    modifies buf
    ensures Parses(old(buf[..]), buf[..], str, ok, saveptr)
  {
    ghost var b := buf[..];
    ghost var s := StringAt(b, str);
    var equals := Strchr(buf, str, '=');
    var comma := Strchr(buf, str, ',');
    if equals.Some? && (comma.None? || comma.value < equals.value) {
      equals := None;
    }
    if equals.Some? && buf[equals.value + 1] == '{' {
      ok, saveptr := ParseMap(buf, str, equals.value);
    } else {
      assert equals.Some? ==> s[equals.value + 1 - str] == b[equals.value + 1];
      ok, saveptr := ParsePlain(buf, str, comma);
    }
  }

  /** The case without a map: up to the comma, or all that is left. */
  method ParsePlain(buf: array<char>, str: nat, comma: Option<nat>) returns (ok: bool, saveptr: Option<nat>)
    requires Terminated(buf[..], str)
    requires var s := StringAt(buf[..], str);
             var equals, i := IndexOf(s, '='), IndexOf(s, ',');
             && comma == (if i.Some? then Some(str + i.value) else None)
             && (i.Some? && equals.Some? && equals.value < i.value ==> s[equals.value + 1] != '{')
    modifies buf
    ensures Parses(old(buf[..]), buf[..], str, ok, saveptr)
  {
    ghost var b := buf[..];
    if comma.None? {
      TakesAll(b, str);
      return true, None;
    }
    SplitsAt(b, str, comma.value);
    buf[comma.value] := NUL;
    assert buf[..] == b[comma.value := NUL];
    return true, Some(comma.value + 1);
  }

  /** The case of name={...}, with the equals sign in front of the first comma. */
  method ParseMap(buf: array<char>, str: nat, equals: nat) returns (ok: bool, saveptr: Option<nat>)
    requires Terminated(buf[..], str) && str <= equals && equals + 1 < End(buf[..], str)
    requires var s := StringAt(buf[..], str);
             && IndexOf(s, '=') == Some(equals - str) && s[equals + 1 - str] == '{'
             && IndexOf(s, ',').Some? && equals - str < IndexOf(s, ',').value
    modifies buf
    ensures Parses(old(buf[..]), buf[..], str, ok, saveptr)
  {
    ghost var b := buf[..];
    ghost var s := StringAt(b, str);
    var eom := FindClosing(buf, str, equals + 1);
    if eom.None? {
      return false, None;
    }
    var next := eom.value + 1;
    assert next < End(b, str) ==> s[next - str] == b[next];
    if buf[next] == NUL {
      TakesAll(b, str);
      return true, None;
    }
    if buf[next] != ',' {
      return false, None;
    }
    SplitsAt(b, str, next);
    buf[next] := NUL;
    assert buf[..] == b[next := NUL];
    return true, Some(next + 1);
  }

  /** What the loop still has to return, with `done` tokens found so far. */
  function Remaining(done: seq<string>, b: seq<char>, str: Option<nat>): Option<seq<string>>
    requires str.Some? ==> Terminated(b, str.value)
  {
    if str.None? then Some(done)
    else
      var more := Tokenize(StringAt(b, str.value));
      if more.Some? then Some(done + more.value) else None
  }

  lemma OneMore(done: seq<string>, before: seq<char>, after: seq<char>, str: nat, ok: bool, saveptr: Option<nat>)
    requires Terminated(before, str) && Parses(before, after, str, ok, saveptr)
    ensures Remaining(done, before, Some(str)) ==
            if ok then Remaining(done + [StringAt(after, str)], after, saveptr) else None
    ensures ok && saveptr.Some? ==> |StringAt(after, saveptr.value)| < |StringAt(before, str)|
  {
    var p := Parse(StringAt(before, str));
    if ok && saveptr.Some? {
      var more := Tokenize(p.rest.value);
      if more.Some? {
        assert done + ([p.tok] + more.value) == done + [p.tok] + more.value;
      }
    }
  }

  method Strdup(s: string) returns (buf: array<char>)
    requires NUL !in s
    ensures fresh(buf) && Terminated(buf[..], 0) && StringAt(buf[..], 0) == s
  {
    buf := new char[|s| + 1](i requires 0 <= i <= |s| => if i < |s| then s[i] else NUL);
    assert buf[..|s|] == s;
    EndIs(buf[..], 0, |s|);
  }

  /** The token loop on a copy of the option string. */
  method ParseOptions(opts: string) returns (tokens: Option<seq<string>>)
    requires NUL !in opts
    ensures tokens == Tokenize(opts)
  {
    var buf := Strdup(opts);
    var str: Option<nat>, done := Some(0), [];
    assert Tokenize(opts).Some? ==> done + Tokenize(opts).value == Tokenize(opts).value;
    while str.Some?
      invariant str.Some? ==> Terminated(buf[..], str.value)
      invariant Remaining(done, buf[..], str) == Tokenize(opts)
      decreases if str.Some? then 1 + |StringAt(buf[..], str.value)| else 0
    {
      ghost var before := buf[..];
      var ok, saveptr := ParseToken(buf, str.value);
      OneMore(done, before, buf[..], str.value, ok, saveptr);
      if !ok {
        return None;
      }
      var tok := ReadString(buf, str.value);
      done := done + [tok];
      str := saveptr;
    }
    tokens := Some(done);
  }

  /** The bytes up to the terminator. */
  method ReadString(buf: array<char>, str: nat) returns (s: string)
    requires Terminated(buf[..], str)
    ensures s == StringAt(buf[..], str)
  {
    ghost var b := buf[..];
    s := [];
    var k := str;
    while buf[k] != NUL
      invariant str <= k <= End(b, str) && s == b[str..k]
      decreases End(b, str) - k
    {
      s := s + [buf[k]];
      k := k + 1;
    }
  }
}
