/** The growable strings and string views of examples/str.c (tests/runner.c
    carries identical copies, with the STRING_OK check at their entry).
    A `String` owns a NUL-terminated buffer of `cap` chars holding `len`
    chars of text; a `StringRef` is a view of `len` chars somewhere in
    memory, modelled here by the chars it views. */
module Str {

  /** A growable string: `buf` is `str`, null until the first allocation. */
  class String {
    var buf: array?<char>
    var len: int
    var cap: int

    /** STRING_OK (tests/runner.c:12-23): either the empty string that owns
        no buffer, or a buffer of `cap` chars with room for the text and
        its terminator, and a NUL right after the text. */
    ghost predicate Valid()
      reads this, buf
    {
      || (cap == 0 && len == 0 && buf == null)
      || (buf != null && buf.Length == cap && 0 <= len && len + 1 <= cap && buf[len] == '\0')
    }

    /** The text the string holds. */
    ghost function Content(): seq<char>
      reads this, buf
      requires Valid()
    {
      if buf == null then [] else buf[..len]
    }

    /** string_init (examples/str.c:45): the empty string with no buffer. */
    constructor Init()
      ensures Valid() && Content() == [] && cap == 0 && buf == null
    {
      buf, len, cap := null, 0, 0;
    }

    /** realloc of the buffer to `n` chars: a fresh buffer that keeps the
        first chars of the old one, as many as both can hold. */
    method Realloc(n: int)
      requires 0 < n
      modifies this
      ensures buf != null && fresh(buf) && buf.Length == n
      ensures len == old(len) && cap == old(cap)
      ensures old(buf) != null ==> forall i :: 0 <= i < n && i < old(buf.Length) ==> buf[i] == old(buf[i])
    {
      var nb := new char[n];
      if buf != null {
        var m := if n < buf.Length then n else buf.Length;
        forall i | 0 <= i < m {
          nb[i] := buf[i];
        }
      }
      buf := nb;
    }

    /** string_append (examples/str.c:52-61): when the text and a
        terminator would not leave a spare char, the capacity becomes
        `cap * 2 + 10` in a new buffer; then `c` is added and the text
        stays terminated. */
    method Append(c: char)
      requires Valid()
      modifies this, buf
      ensures Valid() && len == old(len) + 1
      ensures Content() == old(Content()) + [c]
      ensures old(len) + 2 >= old(cap) ==> cap == old(cap) * 2 + 10 && fresh(buf)
      ensures old(len) + 2 < old(cap) ==> cap == old(cap) && buf == old(buf)
    {
      if len + 2 >= cap {
        cap := cap * 2 + 10;
        Realloc(cap);
      }
      buf[len] := c;
      buf[len + 1] := '\0';
      len := len + 1;
    }

    /** string_clear (examples/str.c:74-78): the text becomes empty; the
        buffer and the capacity are kept. */
    method Clear()
      requires Valid()
      modifies this, buf
      ensures Valid() && Content() == [] && cap == old(cap) && buf == old(buf)
    {
      len := 0;
      if cap != 0 {
        buf[0] := '\0';
      }
    }

    /** string_concat (examples/str.c:108-123): `b` is added after the text,
        which stays terminated; the capacity grows by `cap * 2 + 10` steps
        until it exceeds the two lengths plus two terminators, and the
        buffer is only replaced when it grew. */
    method Concat(b: seq<char>)
      requires Valid()
      modifies this, buf
      ensures Valid() && Content() == old(Content()) + b
      ensures cap == GrowCap(old(cap), old(len) + |b| + 2)
      ensures cap == old(cap) ==> buf == old(buf)
    {
      ghost var text := Content();
      var need := len + 1 + |b| + 1;
      var newCap := NewCap(cap, need);
      if cap != newCap {
        Realloc(newCap);
        cap := newCap;
      }
      assert buf[..len] == text;
      CopyInto(buf, len, b);
      len := len + |b|;
      buf[len] := '\0';
    }

    /** string_resize (examples/str.c:188-204) with the padding written as
        intended: a shorter size truncates the text and keeps the buffer; a
        longer one gives a buffer of exactly `new_size + 1` chars and pads
        the new positions with `pad`. The fill of the source writes `cap`
        chars from offset `len`; see ResizeFillAsWritten. */
    method Resize(newSize: int, pad: char)
      requires Valid() && 0 <= newSize
      modifies this, buf
      ensures Valid() && len == newSize
      ensures newSize <= old(len) ==> Content() == old(Content())[..newSize] && cap == old(cap) && buf == old(buf)
      ensures newSize > old(len) ==> Content() == old(Content()) + Padding(pad, newSize - old(len)) && cap == newSize + 1
    {
      if len == newSize {
        return;
      } else if len > newSize {
        len := newSize;
        if cap != 0 {
          buf[len] := '\0';
        }
      } else {
        cap := newSize + 1;
        Realloc(cap);
        forall i | len <= i < newSize {
          buf[i] := pad;
        }
        len := newSize;
        buf[len] := '\0';
      }
    }
  }

  /** The memcpy of `b` into `a` at offset `at`: what comes before is kept. */
  method CopyInto(a: array<char>, at: nat, b: seq<char>)
    requires at + |b| <= a.Length
    modifies a
    ensures a[..at + |b|] == old(a[..at]) + b
  {
    forall i | 0 <= i < |b| {
      a[at + i] := b[i];
    }
  }

  /** string_clone (examples/str.c:80-91), with the source text read only
      when the source owns a buffer: the destination's capacity grows by
      `cap * 2 + 10` steps until it exceeds the source's length plus two,
      and the destination then holds the source's text, terminated. The
      source itself copies `len + 1` chars from the source's buffer even
      when it is null; see CloneReadsNullAsWritten. */
  method Clone(src: String, dst: String)
    requires src.Valid() && dst.Valid()
    modifies dst, dst.buf
    ensures dst.Valid() && dst.Content() == old(src.Content()) && dst.len == old(src.len)
    ensures dst.cap == GrowCap(old(dst.cap), old(src.len) + 2)
  {
    ghost var text := src.Content();
    var n := src.len;
    var newCap := NewCap(dst.cap, n + 2);
    if newCap != dst.cap {
      dst.Realloc(newCap);
      dst.cap := newCap;
    }
    if src.buf != null {
      forall i | 0 <= i < n {
        dst.buf[i] := src.buf[i];
      }
    }
    dst.buf[n] := '\0';
    dst.len := n;
    assert dst.buf[..n] == text;
  }

  /** The source's string_clone copies `len + 1` chars out of the source's
      buffer: of a string that never allocated one, it reads from null. */
  ghost predicate CloneReadsNullAsWritten(src: String)
    reads src
  {
    src.buf == null && src.len + 1 > 0
  }

  /** Every string that owns no buffer, the state string_init leaves, makes
      the source's string_clone read one char from null, while the
      corrected Clone gives the empty text. */
  lemma EmptyCloneReadsNull(src: String)
    requires src.Valid() && src.cap == 0
    ensures CloneReadsNullAsWritten(src) && src.Content() == []
  {
  }

  /** The capacity after growing `c` by `c * 2 + 10` steps until it exceeds
      `need`. It is above `need`, never below `c`, and when it grew, the
      step before it was at most `need`. */
  function GrowCap(c: int, need: int): (r: int)
    requires 0 <= c
    ensures need < r && c <= r
    ensures c > need ==> r == c
    ensures r == c || r <= 2 * need + 10
    decreases need - c
  {
    if need >= c then GrowCap(c * 2 + 10, need) else c
  }

  /** The capacity loop of string_clone and string_concat. */
  method NewCap(c: int, need: int) returns (r: int)
    requires 0 <= c
    ensures r == GrowCap(c, need)
  {
    r := c;
    while need >= r
      invariant c <= r && GrowCap(r, need) == GrowCap(c, need)
      decreases need - r
    {
      r := r * 2 + 10;
    }
  }

  /** `k` copies of `pad`. */
  function Padding(pad: char, k: nat): (s: seq<char>)
    ensures |s| == k && forall i :: 0 <= i < k ==> s[i] == pad
  {
    seq(k, _ => pad)
  }

  /** The chars the source's string_resize fills when it grows a string
      of length `len` to `newSize`, as offsets from..to: `cap` chars from
      offset `len`, where `cap` is already `newSize + 1`. */
  function ResizeFillAsWritten(len: int, newSize: int): (r: (int, int))
    ensures r.1 - r.0 == newSize + 1
  {
    (len, len + newSize + 1)
  }

  /** Growing any non-empty string makes the source's fill run past the new
      buffer of `newSize + 1` chars, by as many chars as the old length;
      the corrected Resize writes only the positions from `len` to
      `newSize`. */
  lemma ResizeOverrunAsWritten(len: int, newSize: int)
    requires 0 < len < newSize
    ensures ResizeFillAsWritten(len, newSize).1 - (newSize + 1) == len
    ensures ResizeFillAsWritten(len, newSize).1 > newSize + 1
  {
  }

  /** string_substr (examples/str.c:177-180): a view of `n` chars from
      `start`. The source asserts `start < len` and `start + n < len`, so a
      view that reaches the end of the text is refused. */
  method Substr(s: String, start: int, n: int) returns (r: seq<char>)
    requires s.Valid()
    requires 0 <= start && 0 <= n && start < s.len && start + n < s.len
    ensures |r| == n && r == s.Content()[start..start + n]
    ensures forall i :: 0 <= i < n ==> r[i] == s.Content()[start + i]
  {
    r := s.buf[start..start + n];
  }

  /** The character classes the views are trimmed and split by. */
  datatype CharClass = Is(c: char) | IsNot(c: char) | Blank | Space | NonSpace

  /** isspace in the C locale. */
  predicate IsSpace(c: char)
  {
    c == ' ' || c == '\t' || c == '\n' || c == '\r' || c == '\U{000B}' || c == '\U{000C}'
  }

  predicate Matches(k: CharClass, c: char)
  {
    match k
    case Is(d) => c == d
    case IsNot(d) => c != d
    case Blank => c == ' ' || c == '\t'
    case Space => IsSpace(c)
    case NonSpace => !IsSpace(c)
  }

  /** The length of the longest prefix of `s` in class `k`. */
  function Span(s: seq<char>, k: CharClass): (n: nat)
    ensures n <= |s|
  {
    if s == [] || !Matches(k, s[0]) then 0 else 1 + Span(s[1..], k)
  }

  /** Every char of the span is in `k`, and the char after it is not. */
  lemma {:induction false} SpanMeaning(s: seq<char>, k: CharClass)
    ensures forall i :: 0 <= i < Span(s, k) ==> Matches(k, s[i])
    ensures Span(s, k) < |s| ==> !Matches(k, s[Span(s, k)])
  {
    if s != [] && Matches(k, s[0]) {
      SpanMeaning(s[1..], k);
      assert forall i :: 1 <= i < |s| ==> s[1..][i - 1] == s[i];
    }
  }

  /** string_ref_trim_left (examples/str.c:129-139): the view loses its
      longest prefix of `c`, and the count of chars removed is returned. */
  method TrimLeft(view: seq<char>, c: char) returns (rest: seq<char>, n: int)
    ensures 0 <= n <= |view| && n == Span(view, Is(c)) && rest == view[n..]
    ensures forall i :: 0 <= i < n ==> view[i] == c
  {
    var i := 0;
    while i < |view| && view[i] == c
      invariant 0 <= i <= |view|
      invariant forall j :: 0 <= j < i ==> view[j] == c
    {
      i := i + 1;
    }
    SpanExact(view, Is(c), i);
    rest, n := view[i..], i;
  }

  /** string_ref_trim_left_ws (examples/str.c:141-150): trims spaces, then
      tabs, until a round removes nothing; in all, the longest prefix of
      spaces and tabs in any mix goes, and its length is returned. */
  method TrimLeftWs(view: seq<char>) returns (rest: seq<char>, sum: int)
    ensures 0 <= sum <= |view| && sum == Span(view, Blank) && rest == view[sum..]
  {
    rest, sum := view, 0;
    while true
      invariant 0 <= sum <= |view| && rest == view[sum..]
      invariant forall j :: 0 <= j < sum ==> Matches(Blank, view[j])
      decreases |rest|
    {
      var r1, d1 := TrimLeft(rest, ' ');
      var r2, d2 := TrimLeft(r1, '\t');
      assert forall j :: sum <= j < sum + d1 + d2 ==> view[j] == rest[j - sum];
      rest, sum := r2, sum + d1 + d2;
      if d1 + d2 == 0 {
        break;
      }
    }
    SpanExact(view, Blank, sum);
  }

  /** `token` is the first maximal run of non-whitespace chars in
      `original`, preceded only by whitespace, and `rest` is everything
      after it. */
  ghost predicate SplitOnce(original: seq<char>, token: seq<char>, rest: seq<char>)
  {
    var st := |original| - |token| - |rest|;
    && 0 <= st
    && original[st..] == token + rest
    && (forall i :: 0 <= i < st ==> IsSpace(original[i]))
    && (forall i :: 0 <= i < |token| ==> !IsSpace(token[i]))
    && (st < |original| ==> !IsSpace(original[st]))
    && (rest != [] ==> IsSpace(rest[0]))
  }

  /** string_ref_split_ws_once (examples/str.c:152-175): the token is the
      first run of non-whitespace chars, the view becomes what follows it,
      and the result says whether the token is non-empty. */
  method SplitWsOnce(original: seq<char>) returns (rest: seq<char>, token: seq<char>, ok: bool)
    ensures SplitOnce(original, token, rest)
    ensures ok <==> token != []
  {
    var i := 0;
    while i < |original| && IsSpace(original[i])
      invariant 0 <= i <= |original|
      invariant forall j :: 0 <= j < i ==> IsSpace(original[j])
    {
      i := i + 1;
    }
    var start := i;
    while i < |original| && !IsSpace(original[i])
      invariant start <= i <= |original|
      invariant forall j :: start <= j < i ==> !IsSpace(original[j])
    {
      i := i + 1;
    }
    token := original[start..i];
    rest := original[i..];
    ok := i - start != 0;
    assert original[start..] == token + rest;
  }

  /** A prefix whose chars are all in `k` and is followed by the end or by
      a char outside `k` is the span. */
  lemma {:induction false} SpanExact(s: seq<char>, k: CharClass, n: nat)
    requires n <= |s| && forall i :: 0 <= i < n ==> Matches(k, s[i])
    requires n < |s| ==> !Matches(k, s[n])
    ensures Span(s, k) == n
  {
    if n > 0 {
      SpanExact(s[1..], k, n - 1);
    }
  }

  /** The words of `s`: its maximal runs of non-whitespace chars, in order. */
  function Words(s: seq<char>): seq<seq<char>>
    decreases |s|
  {
    var a := Span(s, Space);
    var b := Span(s[a..], NonSpace);
    if b == 0 then [] else [s[a..a + b]] + Words(s[a + b..])
  }

  /** Every word is non-empty and holds no whitespace. */
  predicate IsWord(w: seq<char>)
  {
    w != [] && forall i :: 0 <= i < |w| ==> !IsSpace(w[i])
  }

  /** The words of any text are words. */
  lemma {:induction false} WordsAreWords(s: seq<char>)
    ensures forall w :: w in Words(s) ==> IsWord(w)
    decreases |s|
  {
    var a := Span(s, Space);
    var b := Span(s[a..], NonSpace);
    if b != 0 {
      HeadIsWord(s[a..], b);
      assert s[a..][..b] == s[a..a + b];
      WordsAreWords(s[a + b..]);
      assert Words(s) == [s[a..a + b]] + Words(s[a + b..]);
    }
  }

  /** A non-empty leading run of non-whitespace is a word. */
  lemma HeadIsWord(t: seq<char>, b: nat)
    requires b == Span(t, NonSpace) && b != 0
    ensures IsWord(t[..b])
  {
    SpanMeaning(t, NonSpace);
  }

  /** A split takes the first word and leaves the others: the token is the
      head of the words, or empty when there are none. */
  lemma SplitWords(original: seq<char>, token: seq<char>, rest: seq<char>)
    requires SplitOnce(original, token, rest)
    ensures Words(original) == if token == [] then [] else [token] + Words(rest)
  {
    var st := |original| - |token| - |rest|;
    SpanExact(original, Space, st);
    var tail := original[st..];
    assert tail == token + rest;
    assert forall i :: 0 <= i < |token| ==> tail[i] == token[i];
    assert |token| < |tail| ==> tail[|token|] == rest[0];
    SpanExact(tail, NonSpace, |token|);
    assert original[st..st + |token|] == token;
    assert original[st + |token|..] == rest;
  }

  /** Words separated by whitespace split back into themselves. */
  lemma {:induction false} WordsOfJoined(ws: seq<seq<char>>)
    requires forall w :: w in ws ==> IsWord(w)
    ensures Words(Joined(ws)) == ws
  {
    if ws != [] {
      var j := Joined(ws);
      var t := Joined(ws[1..]);
      WordsOfJoined(ws[1..]);
      assert ws[0] in ws;
      JoinedSplit(ws[0], t);
      SplitWords(j, ws[0], t);
    }
  }

  /** One space, a word, then nothing or more space-led text: the split
      takes the word. */
  lemma JoinedSplit(w: seq<char>, t: seq<char>)
    requires IsWord(w)
    requires t != [] ==> t[0] == ' '
    ensures SplitOnce([' '] + w + t, w, t)
  {
    var o := [' '] + w + t;
    assert o[1..] == w + t;
  }

  /** Each word preceded by one space. */
  function Joined(ws: seq<seq<char>>): (s: seq<char>)
    ensures ws != [] ==> s != [] && s[0] == ' '
  {
    if ws == [] then [] else [' '] + ws[0] + Joined(ws[1..])
  }
}
