// libk/string.c: NUL-terminated strings in buffers, and strtok with its static cursor.
module CString {
  import opened Common

  // The contents of a C string: no NUL among its characters.
  predicate IsText(s: string) {
    forall i :: 0 <= i < |s| ==> s[i] != NUL
  }

  // The index of the first NUL at or after `p`, or |b|.
  function End(b: string, p: nat): (e: nat)
    requires p <= |b|
    ensures p <= e <= |b|
    ensures forall i :: p <= i < e ==> b[i] != NUL
    ensures e < |b| ==> b[e] == NUL
    decreases |b| - p
  {
    if p == |b| || b[p] == NUL then p else End(b, p + 1)
  }

  // A pointer to `p` in buffer `b` is a C string.
  predicate Terminated(b: string, p: nat) {
    p <= |b| && End(b, p) < |b|
  }

  function Str(b: string, p: nat): (s: string)
    requires Terminated(b, p)
    ensures IsText(s)
  {
    b[p..End(b, p)]
  }

  // ----- runs of characters outside a delimiter set -----

  // The first index at or after `p` whose membership in `d` is not `inside`, or |s|.
  function Skip(s: string, d: string, p: nat, inside: bool): (q: nat)
    requires p <= |s|
    ensures p <= q <= |s|
    ensures forall i :: p <= i < q ==> (s[i] in d) == inside
    ensures q < |s| ==> (s[q] in d) != inside
    decreases |s| - p
  {
    if p == |s| || (s[p] in d) != inside then p else Skip(s, d, p + 1, inside)
  }

  datatype Span = Span(lo: nat, hi: nat)

  // What one scan from `p` finds: skip delimiters, take what is not a delimiter.
  function FirstSpan(s: string, d: string, p: nat): (r: Span)
    requires p <= |s|
    ensures p <= r.lo <= r.hi <= |s|
  {
    var lo := Skip(s, d, p, true);
    Span(lo, Skip(s, d, lo, false))
  }

  // The spans that repeated scanning from `p` finds, stepping over one
  // delimiter after each.
  function Spans(s: string, d: string, p: nat): seq<Span>
    requires p <= |s| + 1
    decreases |s| + 1 - p
  {
    if p > |s| then []
    else
      var r := FirstSpan(s, d, p);
      if r.lo == r.hi then [] else [r] + Spans(s, d, r.hi + 1)
  }

  // A maximal non-empty run of characters outside `d`.
  predicate MaximalRun(s: string, d: string, r: Span) {
    && r.lo < r.hi <= |s|
    && (forall i :: r.lo <= i < r.hi ==> s[i] !in d)
    && (r.lo > 0 ==> s[r.lo - 1] in d)
    && (r.hi < |s| ==> s[r.hi] in d)
  }

  // A maximal run from `p` on is the first span or lies after its delimiter.
  lemma {:induction false} FirstRun(s: string, d: string, p: nat, r: Span)
    requires p <= r.lo && MaximalRun(s, d, r)
    ensures var a := Skip(s, d, p, true);
      var b := Skip(s, d, a, false);
      a < b && (r == Span(a, b) || (b < |s| && b + 1 <= r.lo))
  {
    var a := Skip(s, d, p, true);
    var b := Skip(s, d, a, false);
    assert s[r.lo] !in d;
    if b < |s| { assert s[b] in d; }
    if r.hi < |s| { assert s[r.hi] in d; }
    if r.lo > p { assert s[r.lo - 1] in d; }
  }

  lemma {:induction false} FirstSpanIsRun(s: string, d: string, p: nat)
    requires p <= |s| && (p > 0 ==> s[p - 1] in d)
    ensures var a := Skip(s, d, p, true);
      var b := Skip(s, d, a, false);
      a < b ==> MaximalRun(s, d, Span(a, b))
  {
    var a := Skip(s, d, p, true);
    if a > p { assert s[a - 1] in d; }
  }

  lemma {:induction false} SpansSound(s: string, d: string, p: nat, r: Span)
    requires p <= |s| && (p > 0 ==> s[p - 1] in d)
    requires r in Spans(s, d, p)
    ensures MaximalRun(s, d, r) && p <= r.lo
    decreases |s| - p
  {
    var a := Skip(s, d, p, true);
    var b := Skip(s, d, a, false);
    if r == Span(a, b) {
      FirstSpanIsRun(s, d, p);
    } else {
      SpansSound(s, d, b + 1, r);
    }
  }

  lemma {:induction false} SpansComplete(s: string, d: string, p: nat, r: Span)
    requires p <= r.lo && MaximalRun(s, d, r)
    ensures r in Spans(s, d, p)
    decreases |s| - p
  {
    var a := Skip(s, d, p, true);
    var b := Skip(s, d, a, false);
    FirstRun(s, d, p, r);
    if r != Span(a, b) {
      SpansComplete(s, d, b + 1, r);
    }
  }

  // Non-empty spans from `p` on, each after the delimiter that ends the one before.
  predicate InOrder(spans: seq<Span>, p: nat) {
    && (forall i :: 0 <= i < |spans| ==> p <= spans[i].lo < spans[i].hi)
    && forall i, j :: 0 <= i < j < |spans| ==> spans[i].hi < spans[j].lo
  }

  lemma InOrderCons(r: Span, spans: seq<Span>, p: nat)
    requires p <= r.lo < r.hi && InOrder(spans, r.hi + 1)
    ensures InOrder([r] + spans, p)
  {
  }

  lemma {:induction false} SpansInOrder(s: string, d: string, p: nat)
    requires p <= |s| + 1
    ensures InOrder(Spans(s, d, p), p)
    decreases |s| + 1 - p
  {
    if p <= |s| {
      var r := FirstSpan(s, d, p);
      if r.lo < r.hi {
        SpansInOrder(s, d, r.hi + 1);
        InOrderCons(r, Spans(s, d, r.hi + 1), p);
      }
    }
  }

  lemma {:induction false} SpansAreTheMaximalRuns(s: string, d: string)
    ensures forall r :: r in Spans(s, d, 0) <==> MaximalRun(s, d, r)
    ensures InOrder(Spans(s, d, 0), 0)
  {
    SpansInOrder(s, d, 0);
    forall r ensures r in Spans(s, d, 0) <==> MaximalRun(s, d, r) {
      if r in Spans(s, d, 0) { SpansSound(s, d, 0, r); }
      if MaximalRun(s, d, r) { SpansComplete(s, d, 0, r); }
    }
  }

  // The texts of the spans from `p` on.
  function TokensFrom(s: string, d: string, p: nat): seq<string>
    requires p <= |s| + 1
    decreases |s| + 1 - p
  {
    if p > |s| then []
    else
      var r := FirstSpan(s, d, p);
      if r.lo == r.hi then [] else [s[r.lo..r.hi]] + TokensFrom(s, d, r.hi + 1)
  }

  function Tokens(s: string, d: string): seq<string> {
    TokensFrom(s, d, 0)
  }

  // `toks` are the texts of `spans`.
  predicate Texts(s: string, spans: seq<Span>, toks: seq<string>) {
    |toks| == |spans| && forall i :: 0 <= i < |spans| ==> IsTextOf(s, spans[i], toks[i])
  }

  predicate IsTextOf(s: string, r: Span, t: string) {
    r.lo < r.hi <= |s| && t == s[r.lo..r.hi]
  }

  lemma TextsCons(s: string, r: Span, t: string, spans: seq<Span>, toks: seq<string>)
    requires IsTextOf(s, r, t) && Texts(s, spans, toks)
    ensures Texts(s, [r] + spans, [t] + toks)
  {
  }

  // The tokens are the texts of the spans.
  lemma {:induction false} TokensAreSpanTexts(s: string, d: string, p: nat)
    requires p <= |s| + 1
    ensures Texts(s, Spans(s, d, p), TokensFrom(s, d, p))
    decreases |s| + 1 - p
  {
    if p <= |s| {
      var r := FirstSpan(s, d, p);
      if r.lo < r.hi {
        TokensAreSpanTexts(s, d, r.hi + 1);
        TextsCons(s, r, s[r.lo..r.hi], Spans(s, d, r.hi + 1), TokensFrom(s, d, r.hi + 1));
      }
    }
  }

  lemma {:induction false} EndIs(b: string, p: nat, e: nat)
    requires p <= e < |b| && b[e] == NUL && forall i :: p <= i < e ==> b[i] != NUL
    ensures End(b, p) == e
    decreases e - p
  {
    if p < e {
      EndIs(b, p + 1, e);
    }
  }

  lemma {:induction false} SkipAgree(s: string, t: string, d: string, p: nat, inside: bool)
    requires |s| == |t| && p <= |s| && s[p..] == t[p..]
    ensures Skip(s, d, p, inside) == Skip(t, d, p, inside)
    decreases |s| - p
  {
    if p < |s| {
      assert s[p] == s[p..][0] && t[p] == t[p..][0];
      assert s[p + 1..] == s[p..][1..] && t[p + 1..] == t[p..][1..];
      SkipAgree(s, t, d, p + 1, inside);
    }
  }

  // ----- the code -----

  // strchr: the index of the first `c`, that of the terminator for NUL, or -1
  // for a null pointer.
  method Strchr(str: string, c: char) returns (at: int)
    requires IsText(str)
    ensures at == -1 <==> c != NUL && c !in str
    ensures at != -1 ==> 0 <= at <= |str| && (str + [NUL])[at] == c && c !in str[..at]
  {
    at := 0;
    while (str + [NUL])[at] != c
      invariant 0 <= at <= |str| && c !in str[..at]
      decreases |str| - at
    {
      if at == |str| {
        assert str[..at] == str;
        return -1;
      }
      at := at + 1;
    }
  }

  method Strspn(b: array<char>, p: nat, d: string) returns (n: nat)
    requires Terminated(b[..], p) && IsText(d)
    ensures p + n == Skip(b[..End(b[..], p)], d, p, true)
  {
    n := 0;
    ghost var e := End(b[..], p);
    while b[p + n] != NUL
      invariant p + n <= e
      decreases e - n
      invariant forall i :: p <= i < p + n ==> b[i] in d
    {
      var at := Strchr(d, b[p + n]);
      if at == -1 {
        break;
      }
      n := n + 1;
    }
    SkipIs(b[..e], d, p, true, p + n);
  }

  method Strcspn(b: array<char>, p: nat, d: string) returns (n: nat)
    requires Terminated(b[..], p) && IsText(d)
    ensures p + n == Skip(b[..End(b[..], p)], d, p, false)
  {
    n := 0;
    ghost var e := End(b[..], p);
    while b[p + n] != NUL
      invariant p + n <= e
      decreases e - n
      invariant forall i :: p <= i < p + n ==> b[i] !in d
    {
      var at := Strchr(d, b[p + n]);
      if at != -1 {
        break;
      }
      n := n + 1;
    }
    SkipIs(b[..e], d, p, false, p + n);
  }

  lemma {:induction false} SkipIs(s: string, d: string, p: nat, inside: bool, q: nat)
    requires p <= q <= |s|
    requires forall i :: p <= i < q ==> (s[i] in d) == inside
    requires q < |s| ==> (s[q] in d) != inside
    ensures Skip(s, d, p, inside) == q
    decreases |s| - p
  {
    if p < q {
      SkipIs(s, d, p + 1, inside, q);
    }
  }

  predicate OccursAt(a: string, b: string, i: nat) {
    i + |b| <= |a| && a[i..i + |b|] == b
  }

  // The first difference of `b` and the characters of `a` from `i` on is at `k`.
  predicate DiffersAt(a: string, b: string, i: nat, k: nat)
    requires i + |b| <= |a|
  {
    k < |b| && a[i..i + k] == b[..k] && a[i + k] != b[k]
  }

  // memcmp of the characters of `a` from `i` on with `b`.
  method Memcmp(a: string, i: nat, b: string) returns (order: int)
    requires i + |b| <= |a|
    ensures order == 0 <==> OccursAt(a, b, i)
    ensures order != 0 ==> exists k: nat :: DiffersAt(a, b, i, k) && order == if a[i + k] < b[k] then -1 else 1
  {
    var k := 0;
    while k < |b|
      invariant 0 <= k <= |b| && a[i..i + k] == b[..k]
    {
      if a[i + k] != b[k] {
        assert a[i..i + |b|][k] != b[k] && DiffersAt(a, b, i, k);
        return if a[i + k] < b[k] then -1 else 1;
      }
      assert a[i..i + k + 1] == a[i..i + k] + [a[i + k]] && b[..k + 1] == b[..k] + [b[k]];
      k := k + 1;
    }
    assert b[..k] == b;
    return 0;
  }

  // strstr: the index of the first occurrence, or -1 for NULL.
  method Strstr(a: string, b: string) returns (r: int)
    ensures r == -1 <==> forall i: nat :: !OccursAt(a, b, i)
    ensures r == -1 || (r >= 0 && OccursAt(a, b, r) && forall i: nat :: i < r ==> !OccursAt(a, b, i))
  {
    if |a| < |b| {
      return -1;
    }
    var i := 0;
    while i < |a| - |b| + 1
      invariant 0 <= i <= |a| - |b| + 1
      invariant forall k: nat :: k < i ==> !OccursAt(a, b, k)
    {
      var order := Memcmp(a, i, b);
      if order == 0 {
        return i;
      }
      i := i + 1;
    }
    return -1;
  }

  // strcpy of a text into a buffer.
  method Strcpy(dest: array<char>, src: string)
    requires |src| < dest.Length && IsText(src)
    modifies dest
    ensures Terminated(dest[..], 0) && Str(dest[..], 0) == src && End(dest[..], 0) == |src|
  {
    var k := 0;
    while k < |src|
      invariant 0 <= k <= |src| && dest[..k] == src[..k]
    {
      dest[k] := src[k];
      k := k + 1;
    }
    dest[k] := NUL;
    assert dest[..k] == src;
    forall i | 0 <= i < k ensures dest[..][i] != NUL {
      assert dest[..][i] == dest[..k][i];
    }
    EndIs(dest[..], 0, k);
  }

  // strtok with its static cursor: a buffer (null for a null cursor) and an index.
  class Strtok {
    var buf: array?<char>
    var i: nat

    constructor ()
      ensures buf == null
    {
      buf, i := null, 0;
    }

    // `tok` is the index of the token in the buffer, or -1 for NULL.
    method Call(str: array?<char>, d: string) returns (tok: int)
      requires IsText(d) && (str != null ==> Terminated(str[..], 0))
      requires str == null && buf != null ==> Terminated(buf[..], i)
      modifies this, if str != null then str else buf
      ensures str == null && old(buf) == null ==> tok == -1 && buf == null
      ensures str != null ==>
        (buf == null || buf == str) && Advanced(old(str[..]), str[..], d, 0, Cursor(buf != null, i), tok)
      ensures str == null && old(buf) != null ==>
        (buf == null || buf == old(buf)) && Advanced(old(buf[..]), old(buf)[..], d, old(i), Cursor(buf != null, i), tok)
    {
      if str != null {
        buf, i := str, 0;
      } else if buf == null {
        return -1;
      }
      tok := Scan(d);
    }

    // Lines 103 to 108, from a non-null cursor.
    method Scan(d: string) returns (tok: int)
      requires IsText(d) && buf != null && Terminated(buf[..], i)
      modifies this, buf
      ensures buf == null || buf == old(buf)
      ensures Advanced(old(buf[..]), old(buf)[..], d, old(i), Cursor(buf != null, i), tok)
    {
      var b := buf;
      var n := Strspn(b, i, d);
      tok := i + n;
      EndIs(b[..], tok, End(b[..], i));
      var m := Strcspn(b, tok, d);
      i := tok + m;
      if i == tok {
        buf := null;
        return -1;
      }
      if b[i] != NUL {
        b[i] := NUL;
        i := i + 1;
      } else {
        buf := null;
      }
    }

    // The calling pattern strtok(s, d), strtok(NULL, d), ... until NULL. The
    // tokens read are those of the text and only delimiters are overwritten.
    method All(ap: array<char>, d: string) returns (toks: seq<string>)
      requires IsText(d) && Terminated(ap[..], 0)
      modifies this, ap
      ensures toks == Tokens(old(Str(ap[..], 0)), d)
      ensures OnlyDelimitersCut(old(ap[..]), ap[..], d)
    {
      toks := [];
      ghost var b0, e := ap[..], End(ap[..], 0);
      ScanStarts(b0, d);
      var tok := Call(ap, d);
      while tok != -1
        invariant buf == null || buf == ap
        invariant Scanned(b0, ap[..], d, Cursor(buf != null, i), tok, toks)
        decreases if tok == -1 then 0 else 1, if buf == null then 0 else ap.Length - i
      {
        TokenText(b0, ap[..], d, Cursor(buf != null, i), tok, toks);
        var text := Str(ap[..], tok);
        tok := Next(ap, d, b0, tok, toks);
        toks := toks + [text];
      }
    }

    // strtok(NULL, d) when the token at `tok` is the last one read.
    method Next(ap: array<char>, d: string, ghost b0: string, ghost tok: int, ghost toks: seq<string>) returns (tok': int)
      requires IsText(d) && (buf == null || buf == ap) && Terminated(b0, 0)
      requires tok != -1 && Scanned(b0, ap[..], d, Cursor(buf != null, i), tok, toks)
      modifies this, ap
      ensures buf == null || (buf == ap && old(buf) == ap && old(i) < i <= ap.Length)
      ensures Terminated(old(ap[..]), tok)
      ensures Scanned(b0, ap[..], d, Cursor(buf != null, i), tok', toks + [Str(old(ap[..]), tok)])
    {
      ghost var c, a := Cursor(buf != null, i), ap[..];
      TokenText(b0, a, d, c, tok, toks);
      if buf != null {
        ScanContinues(b0, a, d, c, tok, toks);
      }
      tok' := Call(null, d);
    }
  }

  // ----- the state of a scan -----

  datatype Cursor = Cursor(live: bool, i: nat)

  ghost predicate OnlyDelimitersCut(before: string, after: string, d: string) {
    |after| == |before| && forall k :: 0 <= k < |before| ==> after[k] == before[k] || (after[k] == NUL && before[k] in d)
  }

  // Buffer `a`, which was `b0`, has been scanned up to the token at `tok`
  // (or to the end, -1), and `toks` are the tokens before that one.
  ghost predicate Scanned(b0: string, a: string, d: string, c: Cursor, tok: int, toks: seq<string>)
    requires Terminated(b0, 0)
  {
    var e := End(b0, 0);
    var s := b0[..e];
    && OnlyDelimitersCut(b0, a, d)
    && (tok == -1 ==> !c.live && Tokens(s, d) == toks)
    && (tok != -1 ==> 0 <= tok < e && AtToken(b0, a, d, c, tok, Skip(s, d, tok, false)))
    && (tok != -1 ==> Tokens(s, d) == toks + ([s[tok..Skip(s, d, tok, false)]] + TokensFrom(s, d, Skip(s, d, tok, false) + 1)))
  }

  ghost predicate AtToken(b0: string, a: string, d: string, c: Cursor, tok: nat, hi: nat)
    requires Terminated(b0, 0) && |a| == |b0|
  {
    var e := End(b0, 0);
    && tok < hi <= e && a[tok..hi] == b0[tok..hi] && a[hi] == NUL
    && (c.live ==> c.i == hi + 1 <= e && a[c.i..] == b0[c.i..])
    && (c.live ==> b0[hi] in d) && (!c.live ==> hi == e)
  }

  // The outcome of a call of strtok that scans `a` from `p`.
  ghost predicate Advanced(a: string, a': string, d: string, p: nat, c: Cursor, tok: int)
    requires Terminated(a, p)
  {
    var s := a[..End(a, p)];
    var lo := Skip(s, d, p, true);
    AdvancedTo(a, a', lo, Skip(s, d, lo, false), |s|, c, tok)
  }

  // The next token is [lo, hi), or there is none, in a text that ends at `e`.
  ghost predicate AdvancedTo(a: string, a': string, lo: nat, hi: nat, e: nat, c: Cursor, tok: int)
    requires lo <= hi <= e < |a|
  {
    if lo == hi then tok == -1 && !c.live && a' == a
    else if hi == e then tok == lo && !c.live && a' == a
    else tok == lo && c == Cursor(true, hi + 1) && a' == a[hi := NUL]
  }

  lemma {:induction false} ScanStarts(b0: string, d: string)
    requires Terminated(b0, 0)
    ensures forall a, c, tok :: Advanced(b0, a, d, 0, c, tok) ==> Scanned(b0, a, d, c, tok, [])
  {
    forall a, c, tok | Advanced(b0, a, d, 0, c, tok) ensures Scanned(b0, a, d, c, tok, []) {
      ScanStart(b0, d, a, c, tok);
    }
  }

  lemma {:induction false} ScanStart(b0: string, d: string, a: string, c: Cursor, tok: int)
    requires Terminated(b0, 0) && Advanced(b0, a, d, 0, c, tok)
    ensures Scanned(b0, a, d, c, tok, [])
  {
    var s := b0[..End(b0, 0)];
    var r := FirstSpan(s, d, 0);
    Append3([], [], Tokens(s, d));
    ScanFrom(b0, b0, d, 0, r.lo, r.hi, [], a, c, tok);
  }

  lemma {:induction false} TokenText(b0: string, a: string, d: string, c: Cursor, tok: int, toks: seq<string>)
    requires Terminated(b0, 0) && tok != -1 && Scanned(b0, a, d, c, tok, toks)
    ensures Terminated(a, tok) && Str(a, tok) == b0[tok..Skip(b0[..End(b0, 0)], d, tok, false)]
    ensures !c.live ==> Scanned(b0, a, d, c, -1, toks + [Str(a, tok)])
  {
    var s := b0[..End(b0, 0)];
    var hi := Skip(s, d, tok, false);
    EndIs(a, tok, hi);
    assert s[tok..hi] == b0[tok..hi];
    Append3(toks, [s[tok..hi]], []);
  }

  lemma Append3<T>(a: seq<T>, b: seq<T>, c: seq<T>)
    ensures a + (b + c) == (a + b) + c && b + [] == b && [] + c == c
  {
  }

  // The rest of buffer `a` from the cursor on is still that of `b0`.
  lemma {:induction false} RestAgrees(b0: string, a: string, d: string, c: Cursor, tok: nat, hi: nat)
    requires Terminated(b0, 0) && |a| == |b0| && c.live && AtToken(b0, a, d, c, tok, hi)
    ensures var e := End(b0, 0);
      && Terminated(a, c.i) && End(a, c.i) == e
      && Skip(a[..e], d, c.i, true) == Skip(b0[..e], d, c.i, true)
      && Skip(a[..e], d, Skip(b0[..e], d, c.i, true), false) == Skip(b0[..e], d, Skip(b0[..e], d, c.i, true), false)
  {
    var e, p := End(b0, 0), c.i;
    forall k | p <= k < |a| ensures a[k] == b0[k] {
      assert a[k] == a[p..][k - p] && b0[k] == b0[p..][k - p];
    }
    EndIs(a, p, e);
    var lo := Skip(b0[..e], d, p, true);
    SkipAgree(b0[..e], a[..e], d, p, true);
    assert b0[..e][lo..] == a[..e][lo..];
    SkipAgree(b0[..e], a[..e], d, lo, false);
  }

  lemma {:induction false} NextToken(b0: string, a: string, d: string, p: nat, lo: nat, hi: nat, a': string, c': Cursor)
    requires Terminated(b0, 0) && OnlyDelimitersCut(b0, a, d) && p <= |b0| && a[p..] == b0[p..]
    requires p <= lo < hi <= End(b0, 0) && (hi < End(b0, 0) ==> b0[hi] in d)
    requires if hi == End(b0, 0) then !c'.live && a' == a else c' == Cursor(true, hi + 1) && a' == a[hi := NUL]
    ensures OnlyDelimitersCut(b0, a', d) && AtToken(b0, a', d, c', lo, hi)
  {
    forall k | p <= k < |a| ensures a[k] == b0[k] {
      assert a[k] == a[p..][k - p] && b0[k] == b0[p..][k - p];
    }
  }

  lemma {:induction false} ScanStep(b0: string, a: string, d: string, c: Cursor, tok: int, toks: seq<string>,
      a': string, c': Cursor, tok': int)
    requires Terminated(b0, 0) && tok != -1 && c.live && Scanned(b0, a, d, c, tok, toks)
    requires Terminated(a, c.i) && Advanced(a, a', d, c.i, c', tok')
    ensures Scanned(b0, a', d, c', tok', toks + [b0[tok..Skip(b0[..End(b0, 0)], d, tok, false)]])
  {
    var e := End(b0, 0);
    var s := b0[..e];
    var hi := Skip(s, d, tok, false);
    RestAgrees(b0, a, d, c, tok, hi);
    assert s[tok..hi] == b0[tok..hi];
    Append3(toks, [s[tok..hi]], TokensFrom(s, d, c.i));
    var r := FirstSpan(s, d, c.i);
    ScanFrom(b0, a, d, c.i, r.lo, r.hi, toks + [s[tok..hi]], a', c', tok');
  }

  lemma {:induction false} ScanFrom(b0: string, a: string, d: string, p: nat, lo: nat, hi: nat, toks: seq<string>,
      a': string, c': Cursor, tok': int)
    requires Terminated(b0, 0) && OnlyDelimitersCut(b0, a, d) && p <= End(b0, 0) && a[p..] == b0[p..]
    requires FirstSpan(b0[..End(b0, 0)], d, p) == Span(lo, hi) && AdvancedTo(a, a', lo, hi, End(b0, 0), c', tok')
    requires Tokens(b0[..End(b0, 0)], d) == toks + TokensFrom(b0[..End(b0, 0)], d, p)
    ensures Scanned(b0, a', d, c', tok', toks)
  {
    FirstToken(b0[..End(b0, 0)], d, p, lo, hi);
    if lo < hi {
      TokenFound(b0, a, d, p, lo, hi, toks, a', c');
    } else {
      NoToken(b0, a, d, toks, c');
    }
  }

  lemma NoToken(b0: string, a: string, d: string, toks: seq<string>, c: Cursor)
    requires Terminated(b0, 0) && OnlyDelimitersCut(b0, a, d) && !c.live
    requires Tokens(b0[..End(b0, 0)], d) == toks + []
    ensures Scanned(b0, a, d, c, -1, toks)
  {
    Append3(toks, [], []);
  }

  lemma FirstToken(s: string, d: string, p: nat, lo: nat, hi: nat)
    requires p <= |s| && FirstSpan(s, d, p) == Span(lo, hi)
    ensures TokensFrom(s, d, p) == if lo == hi then [] else [s[lo..hi]] + TokensFrom(s, d, hi + 1)
  {
  }

  lemma {:induction false} TokenFound(b0: string, a: string, d: string, p: nat, lo: nat, hi: nat, toks: seq<string>, a': string, c': Cursor)
    requires Terminated(b0, 0) && OnlyDelimitersCut(b0, a, d) && p <= End(b0, 0) && a[p..] == b0[p..]
    requires p <= lo < hi <= End(b0, 0) && hi == Skip(b0[..End(b0, 0)], d, lo, false)
    requires AdvancedTo(a, a', lo, hi, End(b0, 0), c', lo)
    requires var s := b0[..End(b0, 0)]; Tokens(s, d) == toks + ([s[lo..hi]] + TokensFrom(s, d, hi + 1))
    ensures Scanned(b0, a', d, c', lo, toks)
  {
    var s := b0[..End(b0, 0)];
    assert hi < |s| ==> s[hi] == b0[hi] && s[hi] in d;
    NextToken(b0, a, d, p, lo, hi, a', c');
  }

  lemma {:induction false} ScanContinues(b0: string, a: string, d: string, c: Cursor, tok: int, toks: seq<string>)
    requires Terminated(b0, 0) && tok != -1 && c.live && Scanned(b0, a, d, c, tok, toks)
    ensures Terminated(a, c.i) && Terminated(a, tok)
    ensures forall a', c', tok' ::
      Advanced(a, a', d, c.i, c', tok') ==> Scanned(b0, a', d, c', tok', toks + [Str(a, tok)])
  {
    TokenText(b0, a, d, c, tok, toks);
    RestAgrees(b0, a, d, c, tok, Skip(b0[..End(b0, 0)], d, tok, false));
    forall a', c', tok' | Advanced(a, a', d, c.i, c', tok')
      ensures Scanned(b0, a', d, c', tok', toks + [Str(a, tok)])
    {
      ScanStep(b0, a, d, c, tok, toks, a', c', tok');
    }
  }
}
