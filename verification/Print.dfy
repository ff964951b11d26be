// The output side of the print library: a character buffer that is flushed into an append worker,
// and the two workers that append to a string.
module Print {
  import opened Text

  const PRINT_STRING_LEN := 200
  const NEWLINE: CHAR16 := 0x0A
  const RETURN: CHAR16 := 0x0D

  function Take(s: seq<CHAR16>, n: nat): seq<CHAR16> {
    if n <= |s| then s[..n] else s
  }

  lemma TakeMore(s: seq<CHAR16>, t: seq<CHAR16>, n: nat)
    ensures Take(s + t, n) == Take(s, n) + Take(t, n - |Take(s, n)|)
  {}

  lemma TakeAll(s: seq<CHAR16>, n: nat)
    ensures Take(s, n) == s[..if |s| < n then |s| else n]
  {}

  lemma TakePrefix(s: seq<CHAR16>, t: seq<CHAR16>, n: nat)
    ensures |Take(s, n)| <= |Take(s + t, n)|
  {}

  // The limit that a buffer of so many bytes puts on the text, computed in 64 bits.
  const NO_LIMIT: nat := 0xffff_ffff_ffff_ffff

  function MaxLen(strSize: nat): nat {
    (strSize / 2 + NO_LIMIT) % 0x1_0000_0000_0000_0000
  }

  // A size of 0 means no limit, as documented, and so does a size of one byte; every other size
  // leaves room for its characters less the terminator.
  lemma NoLimitIff(strSize: nat)
    requires strSize < 0x1_0000_0000_0000_0000
    ensures MaxLen(strSize) == 0xffff_ffff_ffff_ffff <==> strSize < 2
    ensures strSize >= 2 ==> MaxLen(strSize) == strSize / 2 - 1 && 2 * (MaxLen(strSize) + 1) <= strSize
  {}

  // The limit is zero, and no terminator is written, exactly for buffers of two or three bytes: of
  // one character.
  lemma ZeroLimitIff(strSize: nat)
    requires strSize <= NO_LIMIT
    ensures MaxLen(strSize) == 0 <==> strSize == 2 || strSize == 3
  {}

  method CopyChars(dest: array<CHAR16>, at: nat, src: seq<CHAR16>, n: nat)
    requires at + n <= dest.Length && n <= |src|
    modifies dest
    ensures dest[..at + n] == old(dest[..at]) + src[..n]
  {
    ghost var before := dest[..at];
    forall i | 0 <= i < n {
      dest[at + i] := src[i];
    }
    assert dest[..at + n] == before + src[..n];
  }

  // ---- the string under construction ----

  class PoolPrint {
    var str: array?<CHAR16>
    var len: nat
    var maxlen: nat

    constructor (str: array?<CHAR16>, maxlen: nat)
      ensures this.str == str && this.len == 0 && this.maxlen == maxlen
    {
      this.str, this.len, this.maxlen := str, 0, maxlen;
    }

    // The string so far; meaningful when the buffer reaches that far.
    function Held(): seq<CHAR16>
      reads this, str
      requires len == 0 || (str != null && len <= str.Length)
    {
      if len == 0 then [] else str[..len]
    }

    // The buffer has room for as much of the text as maxlen admits, and a terminator. Without a
    // limit that is all of it.
    predicate Room(text: seq<CHAR16>)
      reads this
    {
      maxlen > 0 ==> str != null && |Take(text, maxlen)| < str.Length
    }

    // A fixed buffer with as much of the text as maxlen admits.
    ghost predicate Bounded(text: seq<CHAR16>)
      reads this, str
    {
      && Room(text) && len == |Take(text, maxlen)|
      && (len > 0 ==> maxlen > 0) && len <= maxlen
      && Held() == Take(text, maxlen)
    }

    // A pool buffer that holds everything, with room for a terminator.
    ghost predicate Growing(text: seq<CHAR16>)
      reads this, str
    {
      && (str == null ==> len == 0 && maxlen == 0 && text == [])
      && (str != null ==> str.Length == maxlen && len < maxlen)
      && Held() == text
    }

    ghost predicate Terminated()
      reads this, str
    {
      str != null && len < str.Length && str[len] == 0
    }

    // The fixed-buffer worker: appends as much as fits and terminates, unless the limit is zero; then
    // it leaves the buffer alone.
    method SPrint(buffer: CString)
      requires maxlen > 0 ==> str != null && (if len + |buffer| < maxlen then len + |buffer| else maxlen) < str.Length
      requires len <= maxlen
      modifies this`len, str
      ensures len == if old(len) + |buffer| < maxlen then old(len) + |buffer| else maxlen
      ensures Held() == old(Held()) + buffer[..len - old(len)]
      ensures maxlen > 0 ==> Terminated()
      ensures maxlen == 0 && str != null ==> str[..] == old(str[..])
    {
      var n := |buffer|;
      if len + n > maxlen {
        n := maxlen - len;
      }
      if n > 0 {
        CopyChars(str, len, buffer, n);
      }
      len := len + n;
      if len < maxlen {
        str[len] := 0;
      } else if maxlen != 0 {
        str[maxlen] := 0;
      }
    }

    // Cut off at maxlen, the text goes on with what was appended.
    method SPrintText(buffer: CString, ghost text: seq<CHAR16>)
      requires Bounded(text) && Room(text + buffer)
      modifies this`len, str
      ensures Bounded(text + buffer) && (maxlen > 0 ==> Terminated())
      ensures maxlen == 0 && str != null ==> str[..] == old(str[..])
    {
      TakeMore(text, buffer, maxlen);
      TakeAll(buffer, maxlen - len);
      SPrint(buffer);
    }

    // The pool worker: grows the buffer first when the text would not fit. `pool` says whether
    // the allocation succeeds.
    method PoolAppend(buffer: CString, pool: bool, ghost text: seq<CHAR16>)
      requires Growing(text)
      modifies this, str
      ensures str == old(str) || str == null || fresh(str)
      ensures Growing(if pool || old(len) + |buffer| + 1 <= old(maxlen) then text + buffer else [])
      ensures pool || str != null ==> Terminated()
      ensures maxlen == if old(len) + |buffer| < old(maxlen) then old(maxlen)
                        else if pool then old(len) + |buffer| + 1 + 200 else 0
    {
      var newlen := len + |buffer| + 1;
      ghost var before := Held();
      if newlen > maxlen {
        newlen := newlen + PRINT_STRING_LEN;
        maxlen := newlen;
        if pool {
          var grown := new CHAR16[newlen];
          if str != null {
            CopyChars(grown, 0, str[..len], len);
          }
          str := grown;
        } else {
          str := null;
          len := 0;
          maxlen := 0;
        }
      }
      SPrint(buffer);
    }
  }

  // ---- the flush buffer ----

  datatype Worker = SPrintWorker | PoolWorker

  // What a text becomes on its way: a carriage return before each newline.
  function Expanded(text: seq<CHAR16>): seq<CHAR16>
    decreases |text|
  {
    if text == [] then []
    else Expanded(text[..|text| - 1]) + Sent(text[|text| - 1])
  }

  function Sent(c: CHAR16): seq<CHAR16> { if c == NEWLINE then [RETURN, NEWLINE] else [c] }

  lemma {:induction false} ExpandedJoins(a: seq<CHAR16>, b: seq<CHAR16>)
    ensures Expanded(a + b) == Expanded(a) + Expanded(b)
    decreases |b|
  {
    if b == [] {
      assert a + b == a;
    } else {
      assert (a + b)[..|a + b| - 1] == a + b[..|b| - 1];
      ExpandedJoins(a, b[..|b| - 1]);
    }
  }

  // A text without newlines is sent as it is, and a newline as a return and a newline. One more
  // character is sent for each newline, and no other.
  lemma {:induction false} ExpandedIs(text: seq<CHAR16>)
    ensures 0x0A !in text ==> Expanded(text) == text
    ensures Expanded([0x0A]) == [0x0D, 0x0A]
    ensures |Expanded(text)| == |text| + multiset(text)[0x0A]
    decreases |text|
  {
    assert [0x0A][..0] == [];
    if text != [] {
      var front, c := text[..|text| - 1], text[|text| - 1];
      assert text == front + [c];
      ExpandedIs(front);
    }
  }

  function WithoutReturns(s: seq<CHAR16>): seq<CHAR16>
    decreases |s|
  {
    if s == [] then []
    else WithoutReturns(s[..|s| - 1]) + if s[|s| - 1] == 0x0D then [] else [s[|s| - 1]]
  }

  lemma WithoutReturnsLast(s: seq<CHAR16>, c: CHAR16)
    ensures WithoutReturns(s + [c]) == WithoutReturns(s) + if c == 0x0D then [] else [c]
  {
    assert (s + [c])[..|s|] == s;
  }

  // Every newline that is sent follows a carriage return.
  lemma {:induction false} NewlinesFollowReturns(text: seq<CHAR16>)
    ensures forall i :: 0 <= i < |Expanded(text)| && Expanded(text)[i] == 0x0A ==>
      i > 0 && Expanded(text)[i - 1] == 0x0D
    decreases |text|
  {
    if text != [] {
      NewlinesFollowReturns(text[..|text| - 1]);
    }
  }

  lemma SentStripped(e: seq<CHAR16>, c: CHAR16)
    requires c != RETURN
    ensures WithoutReturns(e + Sent(c)) == WithoutReturns(e) + [c]
  {
    hide WithoutReturns;
    if c == NEWLINE {
      WithoutReturnsLast(e, RETURN);
      WithoutReturnsLast(e + [RETURN], NEWLINE);
      assert e + Sent(c) == e + [RETURN] + [NEWLINE];
    } else {
      WithoutReturnsLast(e, c);
    }
  }

  // Without the carriage returns the text is as it was.
  lemma {:induction false} ExpansionIsReversible(text: seq<CHAR16>)
    requires 0x0D !in text
    ensures WithoutReturns(Expanded(text)) == text
    decreases |text|
  {
    if text != [] {
      var front, c := text[..|text| - 1], text[|text| - 1];
      assert text == front + [c];
      ExpansionIsReversible(front);
      assert Expanded(text) == Expanded(front) + Sent(c);
      hide Expanded, Sent, WithoutReturns;
      SentStripped(Expanded(front), c);
    }
  }

  lemma ReturnFirst(s: seq<CHAR16>, n: nat)
    ensures s + Sent(NEWLINE) == s + Sent(RETURN) + [NEWLINE]
    ensures |Take(s + Sent(RETURN), n)| <= |Take(s + Sent(NEWLINE), n)|
  {
    TakePrefix(s + Sent(RETURN), [NEWLINE], n);
    assert s + Sent(RETURN) + [NEWLINE] == s + Sent(NEWLINE);
  }

  lemma NextSent(text: seq<CHAR16>, i: nat, n: nat)
    requires i < |text|
    ensures Expanded(text[..i + 1]) == Expanded(text[..i]) + Sent(text[i])
    ensures |Take(Expanded(text[..i + 1]), n)| <= |Take(Expanded(text), n)|
  {
    assert text[..i + 1][..i] == text[..i];
    assert text == text[..i + 1] + text[i + 1..];
    ExpandedJoins(text[..i + 1], text[i + 1..]);
    TakePrefix(Expanded(text[..i + 1]), Expanded(text[i + 1..]), n);
  }

  class PrintState {
    const buffer: array<CHAR16>
    const worker: Worker
    const context: PoolPrint
    const pool: bool
    var pos: nat
    var len: nat
    ghost var flushed: seq<CHAR16>

    // The buffer and the string under construction do not overlap, and the string holds what was
    // flushed: all of it, or as much as fits.
    ghost predicate Flushable()
      reads this, buffer, context, context.str
    {
      && buffer.Length == PRINT_STRING_LEN && pos < PRINT_STRING_LEN
      && (context.str == null || context.str != buffer)
      && 0 !in buffer[..pos] && 0 !in flushed
      && len == |flushed| + pos && Room(Contents())
      && match worker
         case SPrintWorker => context.Bounded(flushed)
         case PoolWorker => pool && context.Growing(flushed)
    }

    // The string has room for this text.
    predicate Room(text: seq<CHAR16>)
      reads this, context
    {
      worker == SPrintWorker ==> context.Room(text)
    }

    // Where the string is kept, and its limit, are the caller's when the buffer is fixed.
    twostate predicate SameBuffer()
      reads this, context
    {
      worker == SPrintWorker ==> context.str == old(context.str) && context.maxlen == old(context.maxlen)
    }

    // Between characters the buffer is never full.
    ghost predicate Valid()
      reads this, buffer, context, context.str
    {
      Flushable() && pos < PRINT_STRING_LEN - 1
    }

    // All that was put so far, flushed or not.
    ghost function Contents(): seq<CHAR16>
      reads this, buffer
      requires pos <= buffer.Length
    {
      flushed + buffer[..pos]
    }

    constructor (worker: Worker, context: PoolPrint, pool: bool)
      requires match worker
        case SPrintWorker => context.Bounded([])
        case PoolWorker => pool && context.Growing([])
      ensures Valid() && Contents() == []
      ensures this.worker == worker && this.context == context && this.pool == pool && fresh(buffer)
    {
      this.worker, this.context, this.pool := worker, context, pool;
      buffer := new CHAR16[PRINT_STRING_LEN];
      pos, len, flushed := 0, 0, [];
    }

    // PFLUSH, also from within PPUTC when the buffer is full.
    method Flush()
      requires Flushable()
      modifies this`pos, this`flushed, buffer, context, context.str
      ensures SameBuffer() && (context.str == old(context.str) || context.str == null || fresh(context.str))
      ensures Valid() && pos == 0 && flushed == old(flushed) + old(buffer[..pos])
      ensures worker == PoolWorker || context.maxlen > 0 ==> context.Terminated()
      ensures worker == SPrintWorker && context.maxlen == 0 && context.str != null ==> context.str[..] == old(context.str[..])
    {
      hide PoolPrint.Held, PoolPrint.Bounded, PoolPrint.Growing, PoolPrint.Terminated, Take;
      buffer[pos] := 0;
      var chunk := buffer[..pos];
      ghost var text := flushed;
      match worker {
        case SPrintWorker =>
          assert context.Room(text + chunk);
          context.SPrintText(chunk, text);
        case PoolWorker =>
          context.PoolAppend(chunk, pool, text);
      }
      flushed := text + chunk;
      pos := 0;
      assert Contents() == text + chunk;
    }

    // *Pos = c, Pos += 1, Len += 1.
    method Place(c: CHAR16)
      requires Valid() && c != 0 && Room(Contents() + [c])
      modifies this`pos, this`len, buffer
      ensures Flushable() && pos == old(pos) + 1
      ensures Contents() == old(Contents()) + [c]
    {
      hide PoolPrint.Held, PoolPrint.Bounded, PoolPrint.Growing, Take;
      ghost var pending := buffer[..pos];
      buffer[pos] := c;
      assert buffer[..pos + 1] == pending + [c];
      pos := pos + 1;
      len := len + 1;
      assert Contents() == flushed + pending + [c];
    }

    // PPUTC: a newline first sends a carriage return; a full buffer is flushed at once.
    method PutChar(c: CHAR16)
      requires Valid() && c != 0 && Room(Contents() + Sent(c))
      modifies this`pos, this`len, this`flushed, buffer, context, context.str
      ensures SameBuffer() && (context.str == old(context.str) || context.str == null || fresh(context.str))
      ensures Valid() && Contents() == old(Contents()) + Sent(c)
      ensures Contents() == old(Contents()) + if c == 0x0A then [0x0D, 0x0A] else [c]
      ensures c != 0x0A ==> pos == if old(pos) == 198 then 0 else old(pos) + 1
      decreases if c == NEWLINE then 1 else 0
    {
      hide PoolPrint.Held, PoolPrint.Bounded, PoolPrint.Growing, Take;
      if c == NEWLINE {
        ReturnFirst(Contents(), context.maxlen);
        PutChar(RETURN);
      }
      Place(c);
      if pos >= PRINT_STRING_LEN - 1 {
        Flush();
        assert buffer[..pos] == [];
      }
    }

    // Any text put character by character and flushed at the end.
    method Print(text: CString)
      requires Valid() && Contents() == [] && Room(Expanded(text))
      modifies this`pos, this`len, this`flushed, buffer, context, context.str
      ensures Valid() && pos == 0 && flushed == Expanded(text) && len == |Expanded(text)|
      ensures 0x0A !in text ==> flushed == text && len == |text|
      ensures worker == PoolWorker ==> context.Growing(Expanded(text))
      ensures worker == SPrintWorker ==> context.Bounded(Expanded(text))
      ensures worker == PoolWorker || context.maxlen > 0 ==> context.Terminated()
    {
      hide PoolPrint.Held, PoolPrint.Bounded, PoolPrint.Growing, PoolPrint.Terminated, Take;
      var i := 0;
      while i < |text|
        invariant 0 <= i <= |text|
        invariant Valid() && Contents() == Expanded(text[..i])
        invariant SameBuffer() && (context.str == old(context.str) || context.str == null || fresh(context.str))
      {
        NextSent(text, i, context.maxlen);
        PutChar(text[i]);
        i := i + 1;
      }
      assert text[..i] == text;
      ExpandedIs(text);
      hide Expanded;
      Flush();
    }
  }
}
