// The glob matcher: `*` matches any run of characters, `?` any one character, `[...]` one
// character of a set, anything else itself.
module Glob {
  import opened Text

  const STAR: CHAR16 := 0x2A
  const QUERY: CHAR16 := 0x3F
  const OPEN: CHAR16 := 0x5B
  const CLOSE: CHAR16 := 0x5D
  const DASH: CHAR16 := 0x2D

  // ---- patterns and their language ----

  // A pattern is memory: it is read up to a NUL, but a set that is not closed before the NUL swallows
  // it, and what follows in memory is read on.
  datatype Token = Star | AnyOne | Literal(c: CHAR16) | OneOf(body: seq<CHAR16>) | Unclosed(body: seq<CHAR16>)

  // The first `]` or NUL at or after i, or the end of the memory.
  function CloseFrom(p: seq<CHAR16>, i: nat): (j: nat)
    requires i <= |p|
    ensures i <= j <= |p|
    ensures j < |p| ==> p[j] == CLOSE || p[j] == 0
    ensures forall k :: i <= k < j ==> p[k] != CLOSE && p[k] != 0
    decreases |p| - i
  {
    if i == |p| || p[i] == CLOSE || p[i] == 0 then i else CloseFrom(p, i + 1)
  }

  // The memory holds all that may be read of the pattern from i on.
  predicate Scannable(p: seq<CHAR16>, i: nat)
    requires i <= |p|
    decreases |p| - i
  {
    if i == |p| then false
    else if p[i] == 0 then true
    else if p[i] == OPEN then
      var j := CloseFrom(p, i + 1);
      j < |p| && Scannable(p, j + 1)
    else Scannable(p, i + 1)
  }

  function Tokens(p: seq<CHAR16>, i: nat): seq<Token>
    requires i <= |p| && Scannable(p, i)
    decreases |p| - i
  {
    if p[i] == 0 then []
    else if p[i] == OPEN then
      var j := CloseFrom(p, i + 1);
      [SetToken(p, i + 1, j)] + Tokens(p, j + 1)
    else
      [PlainToken(p[i])] + Tokens(p, i + 1)
  }

  function SetToken(p: seq<CHAR16>, at: nat, end: nat): Token
    requires at <= end < |p|
  {
    if p[end] == CLOSE then OneOf(p[at..end]) else Unclosed(p[at..end])
  }

  // Place k of a set's body admits c: a plain character admits itself; a dash admits the
  // range from the character before it (from 0 at the very start) to the one after it, and
  // that one in any case; a dash at the very end admits nothing.
  predicate Admits(body: seq<CHAR16>, k: nat, c: CHAR16)
    requires k < |body|
  {
    if body[k] != DASH then c == body[k]
    else k + 1 < |body| && (c == body[k + 1] || (if k == 0 then 0 else body[k - 1]) <= c <= body[k + 1])
  }

  ghost predicate InSet(body: seq<CHAR16>, c: CHAR16) {
    exists k: nat :: k < |body| && Admits(body, k, c)
  }

  // A set that runs into the NUL admits what it would admit, and everything else too, unless it ends
  // in a dash.
  ghost predicate InUnclosed(body: seq<CHAR16>, c: CHAR16) {
    InSet(body, c) || body == [] || body[|body| - 1] != DASH
  }

  ghost predicate Accepts(t: Token, piece: seq<CHAR16>) {
    match t
    case Star => true
    case AnyOne => |piece| == 1
    case Literal(c) => piece == [c]
    case OneOf(body) => |piece| == 1 && InSet(body, piece[0])
    case Unclosed(body) => |piece| == 1 && InUnclosed(body, piece[0])
  }

  function Concat(pieces: seq<seq<CHAR16>>): seq<CHAR16>
    decreases |pieces|
  {
    if pieces == [] then [] else pieces[0] + Concat(pieces[1..])
  }

  ghost predicate Fits(ts: seq<Token>, pieces: seq<seq<CHAR16>>) {
    |pieces| == |ts| && forall i :: 0 <= i < |ts| ==> Accepts(ts[i], pieces[i])
  }

  // A string is in the language of a pattern when it can be cut into one piece per token,
  // each accepted by its token.
  ghost predicate InLanguage(s: seq<CHAR16>, ts: seq<Token>) {
    exists pieces :: Fits(ts, pieces) && Concat(pieces) == s
  }

  // ---- taking one token off the front ----

  lemma EmptyPattern(s: seq<CHAR16>)
    ensures InLanguage(s, []) <==> s == []
  {
    if s == [] { assert Fits([], []) && Concat([]) == s; }
  }

  lemma FirstPiece(s: seq<CHAR16>, t: Token, ts: seq<Token>, n: nat)
    requires n <= |s| && Accepts(t, s[..n]) && InLanguage(s[n..], ts)
    ensures InLanguage(s, [t] + ts)
  {
    var pieces :| Fits(ts, pieces) && Concat(pieces) == s[n..];
    var all := [s[..n]] + pieces;
    assert all[1..] == pieces;
    assert Fits([t] + ts, all) && Concat(all) == s;
  }

  lemma SplitFirstPiece(s: seq<CHAR16>, t: Token, ts: seq<Token>) returns (n: nat)
    requires InLanguage(s, [t] + ts)
    ensures n <= |s| && Accepts(t, s[..n]) && InLanguage(s[n..], ts)
  {
    var pieces :| Fits([t] + ts, pieces) && Concat(pieces) == s;
    n := |pieces[0]|;
    assert Accepts(([t] + ts)[0], pieces[0]);
    assert s[..n] == pieces[0] && s[n..] == Concat(pieces[1..]);
    assert Fits(ts, pieces[1..]) by {
      forall i | 0 <= i < |ts| ensures Accepts(ts[i], pieces[1..][i]) {
        assert ts[i] == ([t] + ts)[i + 1];
      }
    }
  }

  lemma StarFirst(s: seq<CHAR16>, ts: seq<Token>)
    ensures InLanguage(s, [Star] + ts) <==> exists n :: 0 <= n <= |s| && InLanguage(s[n..], ts)
  {
    if InLanguage(s, [Star] + ts) {
      var n := SplitFirstPiece(s, Star, ts);
    }
    if n :| 0 <= n <= |s| && InLanguage(s[n..], ts) {
      FirstPiece(s, Star, ts, n);
    }
  }

  // Any other token takes exactly the next character.
  lemma OneFirst(str: CString, s: nat, t: Token, ts: seq<Token>)
    requires !t.Star? && s <= |str|
    ensures InLanguage(str[s..], [t] + ts) <==>
      s < |str| && Accepts(t, [str[s]]) && InLanguage(str[s + 1..], ts)
  {
    var rest := str[s..];
    if InLanguage(rest, [t] + ts) {
      var n := SplitFirstPiece(rest, t, ts);
      assert rest[..1] == [str[s]] && rest[1..] == str[s + 1..];
    }
    if s < |str| && Accepts(t, [str[s]]) && InLanguage(str[s + 1..], ts) {
      assert rest[..1] == [str[s]] && rest[1..] == str[s + 1..];
      FirstPiece(rest, t, ts, 1);
    }
  }

  function PlainToken(c: CHAR16): Token {
    if c == STAR then Star else if c == QUERY then AnyOne else Literal(c)
  }

  lemma NextToken(p: seq<CHAR16>, q: nat)
    requires q < |p| && Scannable(p, q) && p[q] != 0
    ensures p[q] != OPEN ==> Scannable(p, q + 1) && Tokens(p, q) == [PlainToken(p[q])] + Tokens(p, q + 1)
    ensures p[q] == OPEN ==>
      var j := CloseFrom(p, q + 1);
      j < |p| && Scannable(p, j + 1) && Tokens(p, q) == [SetToken(p, q + 1, j)] + Tokens(p, j + 1)
  {}

  // ---- the matcher ----

  // The inner scan: the character is looked up in the set opened just before `at`; `next` is the
  // place after the closing bracket, or after the NUL that the set runs into.
  method ScanSet(c: CHAR16, pattern: seq<CHAR16>, at: nat) returns (found: bool, next: nat)
    requires c != 0 && at <= |pattern| && CloseFrom(pattern, at) < |pattern|
    ensures found <==> Accepts(SetToken(pattern, at, CloseFrom(pattern, at)), [c])
    ensures found ==> next == CloseFrom(pattern, at) + 1
  {
    ghost var end := CloseFrom(pattern, at);
    ghost var body := pattern[at..end];
    var l: CHAR16 := 0;
    var i := at;
    var p := pattern[i];
    i := i + 1;
    while p != 0
      invariant at < i <= end + 1 && p == pattern[i - 1]
      invariant forall k: nat :: k < i - 1 - at ==> !Admits(body, k, c)
      invariant p == DASH ==> l == if i - 1 == at then 0 else body[i - 2 - at]
      invariant i == end + 1 && body != [] ==> body[|body| - 1] != DASH
      decreases end + 1 - i
    {
      ghost var k := i - 1 - at;
      if p == CLOSE {
        return false, i;
      }
      assert body[k] == p;
      if p == DASH {
        p := pattern[i];
        if p == 0 || p == CLOSE {
          assert !Admits(body, k, c);
          return false, i;
        }
        if c >= l && c <= p {
          assert Admits(body, k, c);
          break;
        }
      }
      l := p;
      if c == p {
        assert Admits(body, k, c);
        break;
      }
      p := pattern[i];
      i := i + 1;
    }
    while p != 0 && p != CLOSE
      invariant at < i <= end + 1
      invariant if p == CLOSE || p == 0 then i == end + 1 else i <= end
      decreases end + 1 - i
    {
      p := pattern[i];
      i := i + 1;
    }
    return true, i;
  }

  // The case of a star: the rest of the pattern is tried at every suffix of the string.
  method MatchAfterStar(str: CString, pattern: seq<CHAR16>, s0: nat, q: nat) returns (r: bool)
    requires s0 <= |str| && q <= |pattern| && Scannable(pattern, q)
    ensures r <==> exists n :: 0 <= n <= |str[s0..]| && InLanguage(str[s0..][n..], Tokens(pattern, q))
    decreases |pattern| - q, 1
  {
    ghost var rest := str[s0..];
    var s := s0;
    while At(str, s) != 0
      invariant s0 <= s <= |str|
      invariant forall n :: 0 <= n < s - s0 ==> !InLanguage(rest[n..], Tokens(pattern, q))
      decreases |str| - s
    {
      r := MetaMatch(str, pattern, s, q);
      assert rest[s - s0..] == str[s..];
      if r {
        return;
      }
      s := s + 1;
    }
    r := MetaMatch(str, pattern, s, q);
    assert rest[s - s0..] == str[s..];
  }

  method MetaMatch(str: CString, pattern: seq<CHAR16>, s0: nat, p0: nat) returns (r: bool)
    requires s0 <= |str| && p0 <= |pattern| && Scannable(pattern, p0)
    ensures r <==> InLanguage(str[s0..], Tokens(pattern, p0))
    decreases |pattern| - p0, 0
  {
    hide InLanguage, InSet, Tokens, Scannable;
    var s, q := s0, p0;
    while true
      invariant s0 <= s <= |str| && p0 <= q <= |pattern| && Scannable(pattern, q)
      invariant InLanguage(str[s0..], Tokens(pattern, p0)) <==> InLanguage(str[s..], Tokens(pattern, q))
      decreases |pattern| - q
    {
      MoreToRead(pattern, q);
      var p := pattern[q];
      if p == 0 {
        NoTokens(pattern, q);
        EmptyPattern(str[s..]);
        return At(str, s) == 0;
      }
      NextToken(pattern, q);
      q := q + 1;
      if p == STAR {
        StarFirst(str[s..], Tokens(pattern, q));
        r := MatchAfterStar(str, pattern, s, q);
        return r;
      } else if p == QUERY {
        OneFirst(str, s, AnyOne, Tokens(pattern, q));
        if At(str, s) == 0 {
          return false;
        }
        s := s + 1;
      } else if p == OPEN {
        ghost var end := CloseFrom(pattern, q);
        OneFirst(str, s, SetToken(pattern, q, end), Tokens(pattern, end + 1));
        var c := At(str, s);
        if c == 0 {
          return false;
        }
        var found, next := ScanSet(c, pattern, q);
        if !found {
          return false;
        }
        q, s := next, s + 1;
      } else {
        OneFirst(str, s, Literal(p), Tokens(pattern, q));
        var c := At(str, s);
        if c != p {
          return false;
        }
        s := s + 1;
      }
    }
  }

  lemma NoTokens(p: seq<CHAR16>, q: nat)
    requires q < |p| && p[q] == 0
    ensures Scannable(p, q) && Tokens(p, q) == []
  {}

  lemma MoreToRead(p: seq<CHAR16>, q: nat)
    requires q <= |p| && Scannable(p, q)
    ensures q < |p|
  {}

  // ---- patterns whose sets are closed ----

  // Every set that is opened from i on is closed.
  predicate SetsClosed(p: CString, i: nat)
    requires i <= |p|
    decreases |p| - i
  {
    if i == |p| then true
    else if p[i] == OPEN then
      var j := CloseFrom(p, i + 1);
      j < |p| && SetsClosed(p, j + 1)
    else SetsClosed(p, i + 1)
  }

  // Where the reading of a pattern ends.
  function End(p: seq<CHAR16>, i: nat): (e: nat)
    requires i <= |p| && Scannable(p, i)
    ensures i <= e < |p| && p[e] == 0
    decreases |p| - i
  {
    if p[i] == 0 then i
    else if p[i] == OPEN then End(p, CloseFrom(p, i + 1) + 1)
    else End(p, i + 1)
  }

  lemma {:induction false} SameClose(p: CString, rest: seq<CHAR16>, i: nat)
    requires i <= |p|
    ensures CloseFrom(p + [0] + rest, i) == CloseFrom(p, i)
    decreases |p| - i
  {
    if i < |p| && p[i] != CLOSE { SameClose(p, rest, i + 1); }
  }

  // With closed sets the pattern is read to its terminator, whatever lies behind.
  lemma {:induction false} ClosedIsRead(p: CString, rest: seq<CHAR16>, i: nat)
    requires i <= |p| && SetsClosed(p, i)
    ensures Scannable(p + [0] + rest, i) && End(p + [0] + rest, i) == |p|
    decreases |p| - i
  {
    var m := p + [0] + rest;
    if i < |p| {
      assert m[i] == p[i];
      if p[i] == OPEN {
        SameClose(p, rest, i + 1);
        ClosedIsRead(p, rest, CloseFrom(p, i + 1) + 1);
      } else {
        ClosedIsRead(p, rest, i + 1);
      }
    }
  }

  lemma {:induction false} SameUpToClose(m: seq<CHAR16>, o: seq<CHAR16>, i: nat)
    requires i <= |m| && CloseFrom(m, i) < |m|
    requires forall k :: i <= k <= CloseFrom(m, i) ==> k < |o| && o[k] == m[k]
    ensures i <= |o| && CloseFrom(o, i) == CloseFrom(m, i)
    decreases |m| - i
  {
    assert i < |o| && o[i] == m[i];
    if CloseFrom(m, i) > i { SameUpToClose(m, o, i + 1); }
  }

  // The tokens depend on what is read only.
  lemma {:induction false} SameTokens(m: seq<CHAR16>, o: seq<CHAR16>, i: nat)
    requires i <= |m| && Scannable(m, i)
    requires forall k :: i <= k <= End(m, i) ==> k < |o| && o[k] == m[k]
    ensures i <= |o| && Scannable(o, i) && Tokens(o, i) == Tokens(m, i)
    decreases |m| - i
  {
    FirstIsRead(m, i);
    assert o[i] == m[i];
    if m[i] == 0 {
      NoTokens(m, i);
      NoTokens(o, i);
    } else {
      NextToken(m, i);
      hide Scannable, Tokens, CloseFrom, PlainToken, End;
      if m[i] == OPEN {
        var j := CloseFrom(m, i + 1);
        SameUpToClose(m, o, i + 1);
        assert o[i + 1..j] == m[i + 1..j];
        SameTokens(m, o, j + 1);
      } else {
        SameTokens(m, o, i + 1);
      }
      TokenBefore(o, i);
    }
  }

  lemma FirstIsRead(m: seq<CHAR16>, i: nat)
    requires i <= |m| && Scannable(m, i)
    ensures i <= End(m, i)
    ensures m[i] == OPEN ==>
      var j := CloseFrom(m, i + 1); j < |m| && Scannable(m, j + 1) && End(m, i) == End(m, j + 1) > j
    ensures m[i] != OPEN && m[i] != 0 ==> Scannable(m, i + 1) && End(m, i) == End(m, i + 1)
  {}

  lemma TokenBefore(p: seq<CHAR16>, q: nat)
    requires q < |p| && p[q] != 0
    ensures p[q] != OPEN && Scannable(p, q + 1) ==>
      Scannable(p, q) && Tokens(p, q) == [PlainToken(p[q])] + Tokens(p, q + 1)
    ensures var j := CloseFrom(p, q + 1);
      p[q] == OPEN && j < |p| && Scannable(p, j + 1) ==>
        Scannable(p, q) && Tokens(p, q) == [SetToken(p, q + 1, j)] + Tokens(p, j + 1)
  {}

  // So they are those of the pattern alone.
  lemma ClosedTokens(p: CString, rest: seq<CHAR16>)
    requires SetsClosed(p, 0)
    ensures Scannable(p + [0] + rest, 0) && Scannable(p + [0], 0)
    ensures Tokens(p + [0] + rest, 0) == Tokens(p + [0], 0)
  {
    ClosedIsRead(p, rest, 0);
    ClosedIsRead(p, [], 0);
    assert p + [0] + [] == p + [0];
    hide Scannable, End, Tokens;
    SameTokens(p + [0], p + [0] + rest, 0);
  }

  // The reading stays within the pattern exactly when its sets are closed.
  lemma {:induction false} StaysWithinIff(p: CString, rest: seq<CHAR16>, i: nat)
    requires i <= |p| && Scannable(p + [0] + rest, i)
    ensures End(p + [0] + rest, i) == |p| <==> SetsClosed(p, i)
    decreases |p| - i
  {
    var m := p + [0] + rest;
    if i < |p| {
      assert m[i] == p[i];
      if p[i] == OPEN {
        SameClose(p, rest, i + 1);
        var j := CloseFrom(p, i + 1);
        if j < |p| { StaysWithinIff(p, rest, j + 1); }
      } else {
        StaysWithinIff(p, rest, i + 1);
      }
    }
  }

  // For instance `[a`, with a NUL behind its terminator: it matches the one-character string `z`.
  lemma UnclosedSetMatches()
    ensures var p: seq<CHAR16> := [OPEN, 0x61, 0, 0];
      Scannable(p, 0) && End(p, 0) == 3 && InLanguage([0x7A], Tokens(p, 0))
  {
    var p: seq<CHAR16> := [OPEN, 0x61, 0, 0];
    assert CloseFrom(p, 2) == 2 && CloseFrom(p, 1) == 2 && p[1..2] == [0x61];
    NoTokens(p, 3);
    TokenBefore(p, 0);
    FirstIsRead(p, 0);
    assert End(p, 3) == 3;
    var ts := Tokens(p, 0);
    assert ts == [SetToken(p, 1, 2)] + [] == [Unclosed([0x61])];
    var pieces: seq<seq<CHAR16>> := [[0x7A]];
    assert Fits(ts, pieces) && Concat(pieces) == [0x7A] + Concat(pieces[1..]);
  }

  // ---- sets as they are written: characters and ranges ----

  datatype SetItem = One(c: CHAR16) | Range(lo: CHAR16, hi: CHAR16)

  predicate Plain(c: CHAR16) { c != 0 && c != 0x2D && c != 0x5D }

  predicate PlainItem(item: SetItem) {
    match item
    case One(c) => Plain(c)
    case Range(lo, hi) => Plain(lo) && Plain(hi)
  }

  function RenderItem(item: SetItem): seq<CHAR16> {
    match item
    case One(c) => [c]
    case Range(lo, hi) => [lo, 0x2D, hi]
  }

  function RenderSet(items: seq<SetItem>): seq<CHAR16>
    decreases |items|
  {
    if items == [] then [] else RenderItem(items[0]) + RenderSet(items[1..])
  }

  // A range names its own ends even when it is written upside down.
  predicate Covers(item: SetItem, c: CHAR16) {
    match item
    case One(x) => c == x
    case Range(lo, hi) => lo <= c <= hi || c == lo || c == hi
  }

  lemma ItemMeaning(item: SetItem, c: CHAR16)
    requires PlainItem(item)
    ensures InSet(RenderItem(item), c) <==> Covers(item, c)
  {
    var body := RenderItem(item);
    if item.Range? {
      assert Admits(body, 0, c) <==> c == item.lo;
      assert Admits(body, 1, c) <==> c == item.hi || item.lo <= c <= item.hi;
      assert Admits(body, 2, c) <==> c == item.hi;
    } else {
      assert Admits(body, 0, c) <==> c == item.c;
    }
  }

  lemma SetsJoin(a: seq<CHAR16>, b: seq<CHAR16>, c: CHAR16)
    requires a != [] && a[|a| - 1] != DASH && (b != [] ==> b[0] != DASH)
    ensures InSet(a + b, c) <==> InSet(a, c) || InSet(b, c)
  {
    forall k: nat | k < |a| ensures Admits(a + b, k, c) <==> Admits(a, k, c) {}
    forall k: nat | k < |b| ensures Admits(a + b, |a| + k, c) <==> Admits(b, k, c) {}
    if InSet(a + b, c) {
      var k: nat :| k < |a + b| && Admits(a + b, k, c);
      if k < |a| { assert Admits(a, k, c); } else { assert Admits(b, k - |a|, c); }
    }
    if InSet(a, c) {
      var k: nat :| k < |a| && Admits(a, k, c);
      assert Admits(a + b, k, c);
    }
    if InSet(b, c) {
      var k: nat :| k < |b| && Admits(b, k, c);
      assert Admits(a + b, |a| + k, c);
    }
  }

  // The scanner's reading of a set body is the union of the items it was written from.
  lemma {:induction false} SetMeaning(items: seq<SetItem>, c: CHAR16)
    requires forall i :: 0 <= i < |items| ==> PlainItem(items[i])
    ensures InSet(RenderSet(items), c) <==> exists i :: 0 <= i < |items| && Covers(items[i], c)
    ensures 0 !in RenderSet(items) && 0x5D !in RenderSet(items)
    ensures items != [] ==> RenderSet(items) != [] && RenderSet(items)[0] != 0x2D
    decreases |items|
  {
    if items == [] {
    } else {
      var first, rest := items[0], items[1..];
      SetMeaning(rest, c);
      ItemMeaning(first, c);
      SetsJoin(RenderItem(first), RenderSet(rest), c);
      hide InSet, Covers;
      if i :| 0 <= i < |items| && Covers(items[i], c) {
        assert i > 0 ==> items[i] == rest[i - 1];
      }
      if i :| 0 <= i < |rest| && Covers(rest[i], c) {
        assert items[i + 1] == rest[i];
      }
    }
  }

  // A dash at the start stands for everything up to the next character, one at the end for nothing.
  lemma DashAtTheEdge(x: CHAR16, c: CHAR16)
    requires x != 0x2D
    ensures InSet([0x2D, x], c) <==> c <= x
    ensures InSet([x, 0x2D], c) <==> c == x
  {
    var first, last := [0x2D, x], [x, 0x2D];
    assert Admits(first, 0, c) <==> c <= x;
    assert Admits(first, 1, c) <==> c == x;
    assert Admits(last, 0, c) <==> c == x;
    assert !Admits(last, 1, c);
  }

  // ---- what each character of a pattern matches ----

  // At the pattern's end the string must be at its end; `?` takes any one character, `*` any run, and
  // every character but these and `[` takes exactly itself.
  lemma CharacterMeaning(str: CString, s: nat, p: seq<CHAR16>, q: nat)
    requires s <= |str| && q < |p| && Scannable(p, q)
    ensures p[q] == 0 ==> (InLanguage(str[s..], Tokens(p, q)) <==> s == |str|)
    ensures p[q] == 0x3F ==>
      && Scannable(p, q + 1)
      && (InLanguage(str[s..], Tokens(p, q)) <==> s < |str| && InLanguage(str[s + 1..], Tokens(p, q + 1)))
    ensures p[q] == 0x2A ==>
      && Scannable(p, q + 1)
      && (InLanguage(str[s..], Tokens(p, q)) <==>
            exists n :: s <= n <= |str| && InLanguage(str[n..], Tokens(p, q + 1)))
    ensures p[q] !in {0, 0x3F, 0x2A, 0x5B} ==>
      && Scannable(p, q + 1)
      && (InLanguage(str[s..], Tokens(p, q)) <==>
            s < |str| && str[s] == p[q] && InLanguage(str[s + 1..], Tokens(p, q + 1)))
  {
    hide InLanguage, Scannable, Tokens;
    if p[q] == 0 {
      NoTokens(p, q);
      EmptyPattern(str[s..]);
    } else {
      NextToken(p, q);
      if p[q] == 0x2A {
        StarFirst(str[s..], Tokens(p, q + 1));
        SameSuffixes(str, s, Tokens(p, q + 1));
      } else if p[q] != 0x5B {
        OneFirst(str, s, PlainToken(p[q]), Tokens(p, q + 1));
      }
    }
  }

  // The suffixes of a suffix.
  lemma SameSuffixes(str: CString, s: nat, ts: seq<Token>)
    requires s <= |str|
    ensures (exists n :: 0 <= n <= |str[s..]| && InLanguage(str[s..][n..], ts)) <==>
      exists n :: s <= n <= |str| && InLanguage(str[n..], ts)
  {
    hide InLanguage;
    if n :| 0 <= n <= |str[s..]| && InLanguage(str[s..][n..], ts) {
      assert str[s..][n..] == str[s + n..];
    }
    if n :| s <= n <= |str| && InLanguage(str[n..], ts) {
      assert str[s..][n - s..] == str[n..];
    }
  }

  lemma {:induction false} CloseIs(p: seq<CHAR16>, i: nat, j: nat)
    requires i <= j < |p| && (p[j] == 0x5D || p[j] == 0) && forall k :: i <= k < j ==> p[k] != 0x5D && p[k] != 0
    ensures CloseFrom(p, i) == j
    decreases j - i
  {
    if i < j { CloseIs(p, i + 1, j); }
  }

  // A set from `[` to the next `]` or NUL at j takes one character: one it names, or, when it runs into
  // the NUL, any at all unless it ends in a dash.
  lemma SetTakesOne(str: CString, s: nat, p: seq<CHAR16>, q: nat, j: nat)
    requires s <= |str| && q < j < |p| && Scannable(p, q) && p[q] == 0x5B
    requires (p[j] == 0x5D || p[j] == 0) && forall k :: q < k < j ==> p[k] != 0x5D && p[k] != 0
    ensures Scannable(p, j + 1)
    ensures InLanguage(str[s..], Tokens(p, q)) <==>
      && s < |str|
      && (InSet(p[q + 1..j], str[s]) || (p[j] == 0 && (j == q + 1 || p[j - 1] != 0x2D)))
      && InLanguage(str[s + 1..], Tokens(p, j + 1))
  {
    hide InLanguage, InSet, Scannable, Tokens, CloseFrom;
    CloseIs(p, q + 1, j);
    NextToken(p, q);
    OneFirst(str, s, SetToken(p, q + 1, j), Tokens(p, j + 1));
  }

  // A set written from characters and ranges and closed by `]` takes one character of one of them.
  lemma WrittenSetTakesOne(str: CString, s: nat, p: seq<CHAR16>, q: nat, items: seq<SetItem>)
    requires forall i :: 0 <= i < |items| ==> PlainItem(items[i])
    requires s <= |str| && q <= |p| && Scannable(p, q)
    requires [0x5B] + RenderSet(items) + [0x5D] <= p[q..]
    ensures var next := q + 2 + |RenderSet(items)|;
      && next <= |p| && Scannable(p, next)
      && (InLanguage(str[s..], Tokens(p, q)) <==>
            && s < |str|
            && (exists i :: 0 <= i < |items| && Covers(items[i], str[s]))
            && InLanguage(str[s + 1..], Tokens(p, next)))
  {
    hide InLanguage, InSet, Scannable, Tokens, CloseFrom, RenderSet, Covers, PlainItem;
    var body := RenderSet(items);
    var j := q + 1 + |body|;
    SetStands(p, q, body);
    SetMeaning(items, 0);
    SetTakesOne(str, s, p, q, j);
    if s < |str| { SetMeaning(items, str[s]); }
  }

  lemma SetStands(p: seq<CHAR16>, q: nat, body: seq<CHAR16>)
    requires q <= |p| && [0x5B] + body + [0x5D] <= p[q..]
    ensures var j := q + 1 + |body|; j < |p| && p[q] == 0x5B && p[j] == 0x5D && p[q + 1..j] == body
    ensures forall k :: q < k < q + 1 + |body| ==> p[k] in body
  {
    var t := [0x5B] + body + [0x5D];
    assert forall k :: 0 <= k < |t| ==> p[q + k] == p[q..][k] == t[k];
    forall k | q < k < q + 1 + |body| ensures p[k] in body {
      assert p[q + (k - q)] == t[k - q] == body[k - q - 1];
    }
    assert forall k :: 0 <= k < |body| ==> p[q + 1 + k] == p[q + (k + 1)] == body[k];
  }
}
