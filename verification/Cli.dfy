/** Waiting for the radar's prompt (cli_wait in src/radar.c): a 96-byte sliding buffer, searched
    as a C string after every byte, against a search of the whole input. */
module Cli {
  import opened Bytes
  import opened Frame

  const BUF_SIZE: nat := 96
  const KEEP: nat := 16
  const SLIDE: nat := BUF_SIZE - 1 - KEEP

  function DoneToken(): seq<byte> { [0x44, 0x6F, 0x6E, 0x65] }

  function Prompt(): seq<byte> { [0x6D, 0x6D, 0x77, 0x44, 0x65, 0x6D, 0x6F, 0x3A, 0x2F, 0x3E] }

  lemma {:induction false} Spelling()
    ensures Spells(Prompt(), "mmwDemo:/>") && Spells(DoneToken(), "Done")
  {}

  ghost predicate Spells(t: seq<byte>, s: string) {
    |t| == |s| && forall i :: 0 <= i < |t| ==> t[i] as int == s[i] as int
  }

  /** The tokens searched for: short enough for the kept tail, and without a NUL. */
  ghost predicate Token(t: seq<byte>) { 0 < |t| <= KEEP && 0 !in t }

  predicate At(s: seq<byte>, t: seq<byte>, i: int) { 0 <= i <= |s| - |t| && s[i..i + |t|] == t }

  /** t occurs somewhere in s. */
  predicate Contains(s: seq<byte>, t: seq<byte>) { exists i :: 0 <= i <= |s| - |t| && At(s, t, i) }

  /** strstr on a character buffer, which it reads up to the first NUL. */
  function StrStr(buf: seq<byte>, t: seq<byte>): bool { Contains(CString(buf, |buf|), t) }

  // ---------------------------------------------------------------- what the buffer holds

  /** Where the buffer starts in the input when the k-th byte has just been buffered: it has
      slid by 79 each time 95 bytes were in it. */
  function Start(k: nat): (w: nat)
    ensures w <= k
  {
    if k <= KEEP then 0 else (k - KEEP - 1) / SLIDE * SLIDE
  }

  /** The search after the k-th byte finds t. */
  predicate Sees(input: seq<byte>, k: nat, t: seq<byte>)
    requires k <= |input|
  {
    StrStr(input[Start(k)..k], t)
  }

  lemma StartNext(k: nat)
    ensures k - Start(k) < 96 && Start(k) <= Start(k + 1)
    ensures Start(k + 1) == if k - Start(k) == 95 then k - 16 else Start(k)
  {}

  lemma {:induction false} StartGrows(k: nat, m: nat)
    requires k <= m
    ensures Start(k) <= Start(m)
    decreases m - k
  {
    if k == m {
    } else {
      StartNext(m - 1);
      StartGrows(k, m - 1);
    }
  }

  /** The terminator hides whatever the array holds behind it. */
  lemma {:induction false} Terminated(buf: seq<byte>, fill: nat, n: nat)
    requires fill < |buf| && fill <= n && buf[fill] == 0
    ensures CString(buf, n) == CString(buf[..fill], fill)
    decreases fill
  {
    if fill == 0 || buf[0] == 0 {
    } else {
      Terminated(buf[1..], fill - 1, n - 1);
      assert buf[..fill][1..] == buf[1..][..fill - 1];
    }
  }

  /** Some search up to the u-th byte found t. */
  ghost predicate Seen(input: seq<byte>, u: nat, t: seq<byte>)
    requires u <= |input|
  {
    exists k :: 0 < k <= u && Sees(input, k, t)
  }

  lemma SeenNext(input: seq<byte>, u: nat, t: seq<byte>)
    requires u < |input|
    ensures Seen(input, u + 1, t) <==> Seen(input, u, t) || Sees(input, u + 1, t)
  {}

  /** The loop on bytes that arrive before the deadline: it stops at the first search that finds
      the prompt, and reports whether any search so far found "Done". */
  ghost predicate Waited(input: seq<byte>, done: bool, used: nat) {
    && used <= |input| && (used == |input| || (used > 0 && Sees(input, used, Prompt())))
    && (used > 0 ==> !Seen(input, used - 1, Prompt()))
    && (done <==> Seen(input, used, DoneToken()))
  }

  /** What the comments promise: it stops at the first prompt in all of the input, and reports
      whether "Done" came before. */
  ghost predicate Searched(input: seq<byte>, done: bool, used: nat) {
    && used <= |input| && (used == |input| || Contains(input[..used], Prompt()))
    && (used > 0 ==> !Contains(input[..used - 1], Prompt()))
    && (done <==> Contains(input[..used], DoneToken()))
  }

  // ---------------------------------------------------------------- the loop

  /** The array holds the input from `start` up to k, terminated. */
  ghost predicate Holds(buf: seq<byte>, fill: nat, input: seq<byte>, start: nat, k: nat) {
    && |buf| == BUF_SIZE && fill < BUF_SIZE && buf[fill] == 0
    && start <= k <= |input| && fill == k - start && buf[..fill] == input[start..k]
  }

  lemma {:induction false} BufferSees(buf: seq<byte>, fill: nat, input: seq<byte>, k: nat, t: seq<byte>)
    requires Holds(buf, fill, input, Start(k), k)
    ensures StrStr(buf, t) <==> Sees(input, k, t)
  {
    Terminated(buf, fill, BUF_SIZE);
  }

  /** cli_wait on the bytes that arrive before the deadline; used is how many it consumed. */
  method Wait(input: seq<byte>) returns (done: bool, used: nat)
    ensures Waited(input, done, used)
    // on NUL-free input that is a search of the whole input
    ensures 0 !in input ==> Searched(input, done, used)
  {
    var buf := new byte[BUF_SIZE](_ => 0);
    var fill: nat := 0;
    var stop: bool;
    done, used := false, 0;
    while used < |input|
      invariant fill < BUF_SIZE - 1 && Holds(buf[..], fill, input, Start(used + 1), used)
      invariant used <= |input| && !Seen(input, used, Prompt()) && (done <==> Seen(input, used, DoneToken()))
    {
      SeenNext(input, used, Prompt());
      SeenNext(input, used, DoneToken());
      stop, done, fill := Take(buf, fill, input, used, done);
      used := used + 1;
      if stop { break; }
    }
    if 0 !in input { NulFree(input, done, used); }
  }

  /** The body of the wait loop: buffer a byte, search, slide when full. */
  method Take(buf: array<byte>, fill: nat, input: seq<byte>, k: nat, done: bool)
    returns (stop: bool, done': bool, fill': nat)
    requires k < |input| && fill < BUF_SIZE - 1 && Holds(buf[..], fill, input, Start(k + 1), k)
    modifies buf
    ensures stop <==> Sees(input, k + 1, Prompt())
    ensures done' <==> done || Sees(input, k + 1, DoneToken())
    ensures !stop ==> fill' < BUF_SIZE - 1 && Holds(buf[..], fill', input, Start(k + 2), k + 1)
  {
    fill' := Append(buf, fill, input, Start(k + 1), k);
    BufferSees(buf[..], fill', input, k + 1, DoneToken());
    BufferSees(buf[..], fill', input, k + 1, Prompt());
    done' := done || StrStr(buf[..], DoneToken());
    stop := StrStr(buf[..], Prompt());
    StartNext(k + 1);
    if !stop && fill' >= BUF_SIZE - 1 { fill' := Slide(buf, fill', input, Start(k + 1), k + 1); }
  }

  /** buf[fill++] = b, and the terminator behind it. */
  method Append(buf: array<byte>, fill: nat, input: seq<byte>, start: nat, k: nat) returns (fill': nat)
    requires k < |input| && fill < BUF_SIZE - 1 && Holds(buf[..], fill, input, start, k)
    modifies buf
    ensures Holds(buf[..], fill', input, start, k + 1)
  {
    buf[fill] := input[k];
    fill' := fill + 1;
    buf[fill'] := 0;
    assert buf[..fill'] == old(buf[..fill]) + [input[k]];
    assert buf[..][..fill'] == buf[..fill'] && old(buf[..][..fill]) == old(buf[..fill]);
  }

  /** Keep a tail longer than either token. */
  method Slide(buf: array<byte>, fill: nat, ghost input: seq<byte>, ghost start: nat, ghost k: nat)
    returns (fill': nat)
    requires KEEP <= fill && Holds(buf[..], fill, input, start, k)
    modifies buf
    ensures fill' == 16 && Holds(buf[..], fill', input, k - 16, k)
  {
    CopyTail(buf, fill);
    fill' := KEEP;
    buf[fill'] := 0;
    assert buf[..][..KEEP] == old(buf[..][..fill])[fill - KEEP..] == input[start..k][fill - KEEP..];
  }

  /** The overlapping move of the last 16 bytes to the front. */
  method CopyTail(buf: array<byte>, fill: nat)
    requires KEEP <= fill <= buf.Length
    modifies buf
    ensures buf[..KEEP] == old(buf[fill - KEEP..fill])
  {
    ghost var was := buf[..];
    for i := 0 to KEEP
      invariant buf[..i] == was[fill - KEEP..fill - KEEP + i]
      invariant buf[i..] == was[i..]
    {
      assert buf[fill - KEEP + i] == buf[i..][fill - KEEP] == was[i..][fill - KEEP];
      buf[i] := buf[fill - KEEP + i];
    }
    assert buf[..KEEP] == was[fill - KEEP..fill];
  }

  // ---------------------------------------------------------------- when the two agree

  /** The start of the last buffer, among those searched up to the u-th byte, that an occurrence
      at i can lie in whole. */
  function LastStart(i: nat, u: nat): (w: nat)
    ensures w <= i
  {
    var own := i / SLIDE * SLIDE;
    if own < Start(u) then own else Start(u)
  }

  /** No NUL from i up to j. */
  predicate Clear(s: seq<byte>, i: nat, j: nat)
    requires j <= |s|
  {
    forall n :: i <= n < j ==> s[n] != 0
  }

  /** Some occurrence of t in the first u bytes has no NUL in front of it in that buffer. */
  ghost predicate Shown(input: seq<byte>, u: nat, t: seq<byte>)
    requires u <= |input|
  {
    exists i :: 0 <= i <= u - |t| && At(input, t, i) && Clear(input, LastStart(i, u), i)
  }

  /** Exactly those occurrences are found by some search, whatever else the input contains. */
  lemma {:induction false} SeenIffShown(input: seq<byte>, u: nat, t: seq<byte>)
    requires Token(t) && u <= |input|
    ensures Seen(input, u, t) <==> Shown(input, u, t)
  {
    if Seen(input, u, t) {
      var k :| 0 < k <= u && Sees(input, k, t);
      var i := FoundAt(input, k, t);
      EarlierStart(i, k, u);
    }
    if Shown(input, u, t) {
      var i :| 0 <= i <= u - |t| && At(input, t, i) && Clear(input, LastStart(i, u), i);
      var k := Watcher(i, u, |t|);
      FoundIf(input, k, t, i);
    }
  }

  lemma {:induction false} EarlierStart(i: nat, k: nat, u: nat)
    requires Start(k) <= i && k <= u
    ensures Start(k) <= LastStart(i, u)
  {
    StartGrows(k, u);
  }

  /** A search that lies between the two ends finds t. */
  lemma {:induction false} FoundIf(input: seq<byte>, k: nat, t: seq<byte>, i: nat)
    requires Token(t) && k <= |input| && Start(k) <= i && i + |t| <= k && At(input, t, i)
    requires Clear(input, Start(k), i)
    ensures Sees(input, k, t)
  {
    var (w, p) := (input[Start(k)..k], i - Start(k));
    ClearWindow(input, Start(k), k, t, i);
    Unhidden(w, p + |t|, |w|);
    PrefixOfSlice(input, Start(k), k, CString(w, |w|), p, |t|);
    assert At(CString(w, |w|), t, p);
  }

  lemma {:induction false} ClearWindow(input: seq<byte>, w: nat, k: nat, t: seq<byte>, i: nat)
    requires 0 !in t && w <= i && i + |t| <= k <= |input| && At(input, t, i) && Clear(input, w, i)
    ensures Clear(input[w..k], 0, i - w + |t|)
  {
    forall n | 0 <= n < i - w + |t| ensures input[w..k][n] != 0 {
      if n >= i - w { assert input[i..i + |t|][n + w - i] in t; }
    }
  }

  lemma {:induction false} FoundAt(input: seq<byte>, k: nat, t: seq<byte>) returns (i: nat)
    requires k <= |input| && Sees(input, k, t)
    ensures Start(k) <= i && i + |t| <= k && At(input, t, i) && Clear(input, Start(k), i)
  {
    var w := input[Start(k)..k];
    var c := CString(w, |w|);
    var p :| 0 <= p <= |c| - |t| && At(c, t, p);
    i := Start(k) + p;
    PrefixOfSlice(input, Start(k), k, c, p, |t|);
    assert forall n :: Start(k) <= n < i ==> input[n] == c[n - Start(k)];
  }

  lemma {:induction false} PrefixOfSlice(input: seq<byte>, w: nat, k: nat, c: seq<byte>, p: nat, n: nat)
    requires w <= k <= |input| && c <= input[w..k] && p + n <= |c|
    ensures input[w + p..w + p + n] == c[p..p + n]
  {
    assert forall j :: 0 <= j < |c| ==> c[j] == input[w..k][j] == input[w + j];
  }

  /** Bytes without a NUL are all part of the C string. */
  lemma {:induction false} Unhidden(w: seq<byte>, n: nat, m: nat)
    requires n <= |w| && n <= m && Clear(w, 0, n)
    ensures |CString(w, m)| >= n
    decreases n
  {
    if n == 0 {
    } else {
      assert forall j :: 0 <= j < n - 1 ==> w[1..][j] == w[j + 1];
      Unhidden(w[1..], n - 1, m - 1);
    }
  }

  /** A search whose buffer starts there and reaches past the occurrence. */
  lemma {:induction false} Watcher(i: nat, u: nat, len: nat) returns (k: nat)
    requires 0 < len <= KEEP && i + len <= u
    ensures 0 < k <= u && i + len <= k && Start(k) == LastStart(i, u)
  {
    var own := i / SLIDE * SLIDE;
    if own < Start(u) {
      k := if i + len <= own + KEEP + 1 then own + KEEP + 1 else i + len;
    } else {
      k := u;
    }
  }

  lemma {:induction false} ContainsUpTo(input: seq<byte>, u: nat, t: seq<byte>)
    requires u <= |input|
    ensures Contains(input[..u], t) <==> exists i :: 0 <= i <= u - |t| && At(input, t, i)
  {
    var s := input[..u];
    forall i | 0 <= i <= u - |t| ensures At(s, t, i) <==> At(input, t, i) {
      assert s[i..i + |t|] == input[i..i + |t|];
    }
  }

  /** For every input the loop does what a search of the whole input does, if and only if no NUL
      is in the buffer at the first prompt that has more input behind it, and "Done", if it came
      before, came where a search could see it. */
  lemma {:induction false} AgreesExactly(input: seq<byte>, done: bool, used: nat)
    requires Searched(input, done, used)
    ensures Waited(input, done, used)
       <==> (used < |input| ==> Clear(input, Start(used), used)) && (done ==> Shown(input, used, DoneToken()))
  {
    if used > 0 {
      SeenIffShown(input, used - 1, Prompt());
      ContainsUpTo(input, used - 1, Prompt());
    }
    if used < |input| { FirstPrompt(input, used); }
    SeenIffShown(input, used, DoneToken());
    ContainsUpTo(input, used, DoneToken());
  }

  /** The first prompt ends the input so far, so a search sees it iff nothing hides it. */
  lemma {:induction false} FirstPrompt(input: seq<byte>, used: nat)
    requires used <= |input| && Contains(input[..used], Prompt())
    requires used > 0 ==> !Contains(input[..used - 1], Prompt())
    ensures used > 0 && (Sees(input, used, Prompt()) <==> Clear(input, Start(used), used))
  {
    var i := PromptAtEnd(input, used);
    StartNext(used);
    if Sees(input, used, Prompt()) {
      var p := FoundAt(input, used, Prompt());
      if p < i { ContainsUpTo(input, used - 1, Prompt()); }
      assert p == i;
    }
    if Clear(input, Start(used), used) { FoundIf(input, used, Prompt(), i); }
  }

  lemma {:induction false} PromptAtEnd(input: seq<byte>, used: nat) returns (i: nat)
    requires used <= |input| && Contains(input[..used], Prompt())
    requires used > 0 ==> !Contains(input[..used - 1], Prompt())
    ensures i + |Prompt()| == used && At(input, Prompt(), i) && Clear(input, i, used) && Start(used) <= i
  {
    ContainsUpTo(input, used, Prompt());
    i :| 0 <= i <= used - |Prompt()| && At(input, Prompt(), i);
    ContainsUpTo(input, used - 1, Prompt());
    assert forall n :: i <= n < i + |Prompt()| ==> input[n] == Prompt()[n - i];
  }

  /** Without NUL bytes it always agrees. */
  lemma {:induction false} NulFree(input: seq<byte>, done: bool, used: nat)
    requires Waited(input, done, used) && 0 !in input
    ensures Searched(input, done, used)
  {
    SeenIffContained(input, used, DoneToken());
    if used > 0 {
      SeenIffContained(input, used, Prompt());
      SeenIffContained(input, used - 1, Prompt());
    }
  }

  lemma {:induction false} SeenIffContained(input: seq<byte>, u: nat, t: seq<byte>)
    requires Token(t) && u <= |input| && 0 !in input
    ensures Seen(input, u, t) <==> Contains(input[..u], t)
  {
    SeenIffShown(input, u, t);
    ContainsUpTo(input, u, t);
  }

  /** A leading NUL, and the loop runs past the prompt: on such an input it reads on to the end,
      where a search of the whole input stops after eleven bytes. */
  lemma {:induction false} NulHidesPrompt(rest: seq<byte>, done: bool, used: nat)
    requires 0 < |rest| <= 84 && Waited([0] + Prompt() + rest, done, used)
    ensures used == |[0] + Prompt() + rest| && !done
    ensures Searched([0] + Prompt() + rest, false, 11)
  {
    var input := [0] + Prompt() + rest;
    forall k | 0 < k <= |input| ensures !Sees(input, k, Prompt()) && !Sees(input, k, DoneToken()) {
      Hidden(input, k, Prompt());
      Hidden(input, k, DoneToken());
    }
    assert input[..11] == [0] + Prompt();
    assert At(input[..11], Prompt(), 1);
    DoneElsewhere(input[..11]);
  }

  lemma {:induction false} Hidden(input: seq<byte>, k: nat, t: seq<byte>)
    requires 0 < k <= |input| < BUF_SIZE && input[0] == 0 && t != []
    ensures !Sees(input, k, t)
  {
    var w := input[Start(k)..k];
    assert Start(k) == 0 && w[0] == 0;
    assert CString(w, |w|) == [];
  }

  lemma {:induction false} DoneElsewhere(s: seq<byte>)
    requires s == [0] + Prompt()
    ensures !Contains(s, DoneToken()) && !Contains(s[..10], Prompt())
  {
    forall i | 0 <= i <= |s| - 4 ensures !At(s, DoneToken(), i) {
      AtHead(s, DoneToken(), i);
      assert s[i] != 0x44 || s[i + 1] != 0x6F;
    }
    AtHead(s[..10], Prompt(), 0);
    assert s[..10][0] == 0;
  }

  lemma AtHead(s: seq<byte>, t: seq<byte>, i: nat)
    requires |t| >= 2 && i + |t| <= |s|
    ensures At(s, t, i) ==> s[i] == t[0] && s[i + 1] == t[1]
  {}
}
