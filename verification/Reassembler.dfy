/** The radar stream reassembler (tlv_push and tlv_reset in src/tlv.c, and the loop around them
    in src/radar.c) against a parser that searches the whole stream. */
module Reassembler {
  import opened Bytes

  const MAGIC_LEN: nat := 8
  const HDR_LEN: nat := 40
  const MAX_FRAME: nat := 2048

  function Magic(): (m: seq<byte>) ensures |m| == MAGIC_LEN { [2, 1, 4, 3, 6, 5, 8, 7] }

  // ---------------------------------------------------------------- the one-step matcher

  function EndsWith(s: seq<byte>, t: seq<byte>): bool {
    |t| <= |s| && s[|s| - |t|..] == t
  }

  /** The counter after one byte: on a mismatch it falls back to 1 or 0, never further up. */
  function Advance(pat: seq<byte>, m: nat, b: byte): (m': nat)
    requires m < |pat|
    ensures m' <= |pat|
  {
    if b == pat[m] then m + 1 else if b == pat[0] then 1 else 0
  }

  /** m is the length of the longest proper prefix of pat that s ends with. */
  ghost predicate IsLongest(pat: seq<byte>, s: seq<byte>, m: nat) {
    m < |pat| && EndsWith(s, pat[..m]) && forall j :: m < j < |pat| ==> !EndsWith(s, pat[..j])
  }

  /** pat[..k] ends with pat[..j - 1], and the byte that would extend that match is not the one
      expected after pat[..k]: the case in which falling back to 1 or 0 loses a match. */
  ghost predicate InnerBorder(pat: seq<byte>, k: int, j: int) {
    2 <= j <= k < |pat| && EndsWith(pat[..k], pat[..j - 1]) && pat[j - 1] != pat[k]
  }

  ghost predicate NoInnerBorder(pat: seq<byte>) { forall k, j :: !InnerBorder(pat, k, j) }

  lemma EndsWithSnoc(s: seq<byte>, b: byte, t: seq<byte>)
    requires t != []
    ensures EndsWith(s + [b], t) <==> EndsWith(s, t[..|t| - 1]) && t[|t| - 1] == b
  {}

  lemma EndsWithBoth(s: seq<byte>, t: seq<byte>, u: seq<byte>)
    requires EndsWith(s, t) && EndsWith(s, u) && |u| <= |t|
    ensures EndsWith(t, u)
  {}

  /** One byte keeps the counter the longest match, or completes the pattern. */
  lemma {:induction false} AdvanceLongest(pat: seq<byte>, s: seq<byte>, m: nat, b: byte)
    requires NoInnerBorder(pat) && IsLongest(pat, s, m)
    ensures var m' := Advance(pat, m, b);
            && (m' == |pat| <==> EndsWith(s + [b], pat))
            && (m' < |pat| ==> IsLongest(pat, s + [b], m'))
  {
    var m' := Advance(pat, m, b);
    assert pat[..|pat|] == pat;
    if m' > 0 {
      assert pat[..m'][..m' - 1] == pat[..m' - 1] && EndsWith(s, pat[..m' - 1]);
      EndsWithSnoc(s, b, pat[..m']);
    }
    forall j | m' < j <= |pat| ensures !EndsWith(s + [b], pat[..j]) {
      EndsWithSnoc(s, b, pat[..j]);
      assert pat[..j][..j - 1] == pat[..j - 1];
      assert !InnerBorder(pat, m, j);
      if 2 <= j <= m && EndsWith(s, pat[..j - 1]) { EndsWithBoth(s, pat[..m], pat[..j - 1]); }
    }
  }

  lemma LastOfEnds(s: seq<byte>, t: seq<byte>)
    requires t != []
    ensures EndsWith(s, t) ==> s != [] && s[|s| - 1] == t[|t| - 1]
  {}

  /** Its eight bytes are all different. */
  lemma {:induction false} MagicHasNoInnerBorder()
    ensures NoInnerBorder(Magic())
  {
    forall k, j ensures !InnerBorder(Magic(), k, j) {
      if 2 <= j <= k < MAGIC_LEN { MagicPrefixes(k, j - 1); }
    }
  }

  lemma {:induction false} MagicPrefixes(k: nat, j: nat)
    requires 1 <= j < k < MAGIC_LEN
    ensures !EndsWith(Magic()[..k], Magic()[..j])
  {
    var (s, t) := (Magic()[..k], Magic()[..j]);
    LastOfEnds(s, t);
    assert s[k - 1] == Magic()[k - 1] && t[j - 1] == Magic()[j - 1];
    MagicByte(k - 1);
    MagicByte(j - 1);
  }

  lemma MagicByte(i: nat)
    requires i < MAGIC_LEN
    ensures Magic()[i] == if i % 2 == 0 then i + 2 else i
  {}

  /** The counter after a stream, kept at |pat| once the pattern has been completed. */
  function Counter(pat: seq<byte>, s: seq<byte>): (m: nat)
    requires pat != []
    ensures m <= |pat|
    decreases |s|
  {
    if s == [] then 0
    else
      var m := Counter(pat, s[..|s| - 1]);
      if m == |pat| then m else Advance(pat, m, s[|s| - 1])
  }

  /** For any pattern: the one-step fallback is a correct matcher on every stream exactly when
      the pattern has no inner border. Repeated bytes are what it cannot have, not what it is
      there for. */
  lemma {:induction false} FallbackExact(pat: seq<byte>)
    requires pat != []
    ensures NoInnerBorder(pat)
       <==> forall s :: Counter(pat, s) < |pat| ==> IsLongest(pat, s, Counter(pat, s))
  {
    if NoInnerBorder(pat) {
      forall s | Counter(pat, s) < |pat| ensures IsLongest(pat, s, Counter(pat, s)) {
        CounterLongest(pat, s);
      }
    } else {
      var k, j :| InnerBorder(pat, k, j);
      CounterMisses(pat, k, j);
    }
  }

  lemma {:induction false} CounterMisses(pat: seq<byte>, k: nat, j: nat)
    requires InnerBorder(pat, k, j)
    ensures var s := pat[..k] + [pat[j - 1]]; Counter(pat, s) < |pat| && !IsLongest(pat, s, Counter(pat, s))
  {
    var s := pat[..k] + [pat[j - 1]];
    CounterPrefix(pat, k);
    assert s[..|s| - 1] == pat[..k];
    assert pat[..j][..j - 1] == pat[..j - 1];
    EndsWithSnoc(pat[..k], pat[j - 1], pat[..j]);
  }

  lemma {:induction false} CounterLongest(pat: seq<byte>, s: seq<byte>)
    requires NoInnerBorder(pat) && pat != [] && Counter(pat, s) < |pat|
    ensures IsLongest(pat, s, Counter(pat, s))
    decreases |s|
  {
    if s != [] {
      var k := |s| - 1;
      CounterLongest(pat, s[..k]);
      AdvanceLongest(pat, s[..k], Counter(pat, s[..k]), s[k]);
      assert s == s[..k] + [s[k]];
    }
  }

  lemma {:induction false} CounterPrefix(pat: seq<byte>, k: nat)
    requires k < |pat|
    ensures Counter(pat, pat[..k]) == k
  {
    if k == 0 {
    } else {
      assert pat[..k][..k - 1] == pat[..k - 1];
      CounterPrefix(pat, k - 1);
    }
  }

  // ---------------------------------------------------------------- the state machine

  /** Hunting with m magic bytes matched, or holding the start of a frame. */
  datatype Rx = Hunt(m: nat) | Collect(got: seq<byte>)

  ghost predicate Good(st: Rx) {
    match st
    case Hunt(m) => m < MAGIC_LEN
    case Collect(got) =>
      && MAGIC_LEN <= |got| < MAX_FRAME && got[..MAGIC_LEN] == Magic()
      && (|got| >= HDR_LEN ==> HDR_LEN <= |got| < Rd32(got, 12) <= MAX_FRAME)
  }

  predicate Bogus(total: u32) { total < HDR_LEN || total > MAX_FRAME }

  /** One byte pushed, and the reset that follows a delivered frame. */
  function Step(st: Rx, b: byte): (r: (Rx, seq<seq<byte>>))
    requires st.Hunt? ==> st.m < MAGIC_LEN
    requires st.Collect? ==> |st.got| >= MAGIC_LEN
    ensures r.0.Hunt? ==> r.0.m < MAGIC_LEN
    ensures r.0.Collect? ==> |r.0.got| >= MAGIC_LEN
  {
    match st
    case Hunt(m) =>
      var m' := Advance(Magic(), m, b);
      (if m' == MAGIC_LEN then Collect(Magic()) else Hunt(m'), [])
    case Collect(got) =>
      var g := got + [b];
      if |g| < HDR_LEN then (Collect(g), [])
      else if Bogus(Rd32(g, 12)) then (Hunt(0), [])
      else if |g| < Rd32(g, 12) then (Collect(g), [])
      else (Hunt(0), [g])
  }

  /** What every reachable state keeps: a partial frame starts with the magic, fits the buffer
      and is shorter than it claims; a delivered one has exactly the length it claims. */
  lemma StepGood(st: Rx, b: byte)
    requires Good(st)
    ensures Good(Step(st, b).0)
    ensures forall f :: f in Step(st, b).1 ==> WellFormed(f)
  {}

  /** A frame: 40 to 2048 bytes that start with the magic and give their own number in the word
      at 12. */
  ghost predicate WellFormed(f: seq<byte>) {
    40 <= |f| <= 2048 && f[..8] == [2, 1, 4, 3, 6, 5, 8, 7] && Rd32(f, 12) == |f|
  }

  /** A stream pushed byte by byte: the final state and the frames delivered. */
  function Feed(st: Rx, s: seq<byte>): (r: (Rx, seq<seq<byte>>))
    requires st.Hunt? ==> st.m < MAGIC_LEN
    requires st.Collect? ==> |st.got| >= MAGIC_LEN
    ensures r.0.Hunt? ==> r.0.m < MAGIC_LEN
    ensures r.0.Collect? ==> |r.0.got| >= MAGIC_LEN
    decreases |s|
  {
    if s == [] then (st, [])
    else
      var (st1, f) := Step(st, s[0]);
      var (st2, fs) := Feed(st1, s[1..]);
      (st2, f + fs)
  }

  lemma {:induction false} FeedCons(st: Rx, s: seq<byte>)
    requires Good(st) && s != []
    ensures Step(st, s[0]).1 == [] ==> Feed(st, s) == Feed(Step(st, s[0]).0, s[1..])
  {
    assert [] + Feed(Step(st, s[0]).0, s[1..]).1 == Feed(Step(st, s[0]).0, s[1..]).1;
  }

  lemma {:induction false} FeedSnoc(st: Rx, a: seq<byte>, b: byte)
    requires Good(st)
    ensures Good(Feed(st, a).0)
    ensures Feed(st, a + [b]) == (Step(Feed(st, a).0, b).0, Feed(st, a).1 + Step(Feed(st, a).0, b).1)
  {
    FeedCat(st, a, [b]);
    assert [b][1..] == [];
    assert Step(Feed(st, a).0, b).1 + [] == Step(Feed(st, a).0, b).1;
  }

  lemma FramesAssoc(a: seq<seq<byte>>, b: seq<seq<byte>>, c: seq<seq<byte>>)
    ensures a + (b + c) == a + b + c
  {}

  /** However the bytes are cut into chunks, the outcome is that of the whole stream. */
  lemma {:induction false} FeedCat(st: Rx, a: seq<byte>, b: seq<byte>)
    requires Good(st)
    ensures Good(Feed(st, a).0)
    ensures Feed(st, a + b) == (Feed(Feed(st, a).0, b).0, Feed(st, a).1 + Feed(Feed(st, a).0, b).1)
    decreases |a|
  {
    if a == [] {
      assert a + b == b && [] + Feed(st, b).1 == Feed(st, b).1;
    } else {
      assert (a + b)[1..] == a[1..] + b;
      StepGood(st, a[0]);
      var (st1, f) := Step(st, a[0]);
      FeedCat(st1, a[1..], b);
      FramesAssoc(f, Feed(st1, a[1..]).1, Feed(Feed(st1, a[1..]).0, b).1);
    }
  }

  // ---------------------------------------------------------------- the reference parser

  ghost predicate MagicAt(s: seq<byte>, i: int) { 0 <= i <= |s| - MAGIC_LEN && s[i..i + MAGIC_LEN] == Magic() }

  /** Where the first magic starts. */
  function First(s: seq<byte>): (r: Option<nat>)
    ensures r.Some? ==> r.value + MAGIC_LEN <= |s|
    decreases |s|
  {
    if |s| < MAGIC_LEN then None
    else if s[..MAGIC_LEN] == Magic() then Some(0)
    else match First(s[1..])
      case None => None
      case Some(i) => Some(i + 1)
  }

  lemma {:induction false} FirstIsFirst(s: seq<byte>)
    ensures match First(s)
            case None => forall i :: !MagicAt(s, i)
            case Some(r) => MagicAt(s, r) && forall i :: 0 <= i < r ==> !MagicAt(s, i)
    decreases |s|
  {
    if |s| < MAGIC_LEN || s[..MAGIC_LEN] == Magic() {
    } else {
      FirstIsFirst(s[1..]);
      forall i | i > 0 ensures MagicAt(s, i) <==> MagicAt(s[1..], i - 1) {
        if i + MAGIC_LEN <= |s| { assert s[1..][i - 1..i - 1 + MAGIC_LEN] == s[i..i + MAGIC_LEN]; }
      }
      assert !MagicAt(s, 0);
      var r := First(s[1..]);
      if r.Some? {
        assert MagicAt(s, r.value + 1);
      }
    }
  }

  lemma MagicKept(p: seq<byte>, q: seq<byte>, i: int)
    requires i + MAGIC_LEN <= |p|
    ensures MagicAt(p + q, i) <==> MagicAt(p, i)
  {}

  lemma MagicAtEnd(s: seq<byte>)
    ensures MagicAt(s, |s| - MAGIC_LEN) <==> EndsWith(s, Magic())
  {}

  lemma {:induction false} FirstIs(s: seq<byte>, i: nat)
    requires MagicAt(s, i) && forall j :: 0 <= j < i ==> !MagicAt(s, j)
    ensures First(s) == Some(i)
  {
    FirstIsFirst(s);
  }

  /** Find the first magic; skip its 40-byte header if the length in it is impossible, else take
      that many bytes; go on behind. */
  function Parse(s: seq<byte>): seq<seq<byte>>
    decreases |s|
  {
    var i := First(s);
    if i.None? then [] else Framed(s[i.value..])
  }

  /** ... from a stream that starts with the magic. */
  function Framed(t: seq<byte>): seq<seq<byte>>
    decreases |t|, 0
  {
    if |t| < 40 then []
    else
      var total := Rd32(t, 12);
      if total < 40 || total > 2048 then Parse(t[40..])
      else if |t| < total then []
      else [t[..total]] + Parse(t[total..])
  }

  // ---------------------------------------------------------------- they agree

  ghost predicate NoMagic(s: seq<byte>) { forall i :: !MagicAt(s, i) }

  /** Hunting with p behind it, and no magic in it or to come. */
  lemma {:induction false} HuntGoesOn(p: seq<byte>, m: nat, s: seq<byte>)
    requires IsLongest(Magic(), p, m) && NoMagic(p + s)
    ensures var r := Feed(Hunt(m), s);
            r.1 == [] && r.0.Hunt? && IsLongest(Magic(), p + s, r.0.m)
    decreases |s|
  {
    if s == [] {
      assert p + s == p;
    } else {
      var p' := p + [s[0]];
      assert p' + s[1..] == p + s;
      HuntStep(p, m, s[0]);
      MagicKept(p', s[1..], |p'| - MAGIC_LEN);
      FeedCons(Hunt(m), s);
      HuntGoesOn(p', Advance(Magic(), m, s[0]), s[1..]);
    }
  }

  lemma {:induction false} HuntStep(p: seq<byte>, m: nat, b: byte)
    requires IsLongest(Magic(), p, m)
    ensures var m' := Advance(Magic(), m, b);
            && (m' == MAGIC_LEN <==> MagicAt(p + [b], |p| + 1 - MAGIC_LEN))
            && (m' < MAGIC_LEN ==> IsLongest(Magic(), p + [b], m'))
  {
    MagicHasNoInnerBorder();
    AdvanceLongest(Magic(), p, m, b);
    MagicAtEnd(p + [b]);
  }

  /** Hunting with p behind it stops right behind the first magic of p + s. */
  lemma {:induction false} HuntStops(p: seq<byte>, m: nat, s: seq<byte>, i: nat)
    requires IsLongest(Magic(), p, m) && |p| < i + MAGIC_LEN
    requires MagicAt(p + s, i) && forall j :: 0 <= j < i ==> !MagicAt(p + s, j)
    ensures Feed(Hunt(m), s) == Feed(Collect(Magic()), (p + s)[i + MAGIC_LEN..])
    decreases |s|
  {
    var p' := p + [s[0]];
    assert p' + s[1..] == p + s;
    HuntStep(p, m, s[0]);
    MagicKept(p', s[1..], |p'| - MAGIC_LEN);
    FeedCons(Hunt(m), s);
    if |p'| < i + MAGIC_LEN {
      HuntStops(p', Advance(Magic(), m, s[0]), s[1..], i);
    } else {
      assert (p + s)[i + MAGIC_LEN..] == s[1..];
    }
  }

  /** What the parser does with a stream t that starts with the magic, as an outcome of Feed. */
  ghost predicate Takes(t: seq<byte>, r: (Rx, seq<seq<byte>>)) {
    if |t| < HDR_LEN then r == (Collect(t), [])
    else if Bogus(Rd32(t, 12)) then r == Feed(Hunt(0), t[HDR_LEN..])
    else if |t| < Rd32(t, 12) then r == (Collect(t), [])
    else var rest := Feed(Hunt(0), t[Rd32(t, 12)..]); r == (rest.0, [t[..Rd32(t, 12)]] + rest.1)
  }

  /** Collecting: the machine takes, skips or waits as the parser does. */
  lemma {:induction false} CollectFeeds(got: seq<byte>, s: seq<byte>)
    requires Good(Collect(got))
    ensures Takes(got + s, Feed(Collect(got), s))
    decreases |s|
  {
    if s == [] {
      assert got + s == got;
    } else {
      var g := got + [s[0]];
      assert g + s[1..] == got + s;
      StepGood(Collect(got), s[0]);
      if Step(Collect(got), s[0]).0.Collect? {
        FeedCons(Collect(got), s);
        CollectFeeds(g, s[1..]);
      } else {
        CollectEnds(got, s[0], s[1..]);
        assert [s[0]] + s[1..] == s;
      }
    }
  }

  lemma {:induction false} CollectEnds(got: seq<byte>, b: byte, rest: seq<byte>)
    requires Good(Collect(got)) && Step(Collect(got), b).0.Hunt?
    ensures Takes(got + [b] + rest, Feed(Collect(got), [b] + rest))
  {
    var g, t := got + [b], got + [b] + rest;
    assert ([b] + rest)[1..] == rest && t[|g|..] == rest && t[..|g|] == g;
    assert Rd32(t, 12) == Rd32(g, 12);
    assert |got| >= HDR_LEN ==> Rd32(got, 12) == Rd32(g, 12);
    FeedCons(Collect(got), [b] + rest);
  }

  /** While no magic has gone by nothing is delivered, and the match counter is the longest suffix
      of the stream that is a prefix of the magic. */
  lemma {:induction false} CounterIsLongestSuffix(s: seq<byte>)
    requires First(s) == None
    ensures Feed(Hunt(0), s).1 == []
    ensures Feed(Hunt(0), s).0.Hunt? && IsLongest(Magic(), s, Feed(Hunt(0), s).0.m)
  {
    FirstIsFirst(s);
    assert [] + s == s;
    HuntGoesOn([], 0, s);
  }

  lemma {:induction false} HuntFinds(s: seq<byte>, i: nat)
    requires First(s) == Some(i)
    ensures s[i..][..MAGIC_LEN] == Magic()
    ensures Feed(Hunt(0), s) == Feed(Collect(Magic()), s[i..][MAGIC_LEN..])
  {
    FirstIsFirst(s);
    assert [] + s == s;
    HuntStops([], 0, s, i);
    assert s[i..][MAGIC_LEN..] == s[i + MAGIC_LEN..] && s[i..][..MAGIC_LEN] == s[i..i + MAGIC_LEN];
  }

  /** For every byte stream the machine delivers what the parser finds. */
  lemma {:induction false} FeedIsParse(s: seq<byte>)
    ensures Feed(Hunt(0), s).1 == Parse(s)
    decreases |s|
  {
    if First(s).None? {
      CounterIsLongestSuffix(s);
    } else {
      HuntFinds(s, First(s).value);
      FramedIsFeed(s[First(s).value..]);
    }
  }

  lemma {:induction false} FramedIsFeed(t: seq<byte>)
    requires |t| >= MAGIC_LEN && t[..MAGIC_LEN] == Magic()
    ensures Feed(Collect(Magic()), t[MAGIC_LEN..]).1 == Framed(t)
    decreases |t|, 0
  {
    assert Magic() + t[MAGIC_LEN..] == t;
    CollectFeeds(Magic(), t[MAGIC_LEN..]);
    if |t| >= HDR_LEN {
      var n := if Bogus(Rd32(t, 12)) then HDR_LEN else Rd32(t, 12);
      if n <= |t| { FeedIsParse(t[n..]); }
    }
  }

  // ---------------------------------------------------------------- streams of frames

  /** Garbage before each frame, and after the last. */
  function Stream(gaps: seq<seq<byte>>, frames: seq<seq<byte>>, tail: seq<byte>): seq<byte>
    requires |gaps| == |frames|
  {
    if frames == [] then tail else gaps[0] + frames[0] + Stream(gaps[1..], frames[1..], tail)
  }

  /** Frames separated by garbage in which no magic completes before the frame starts are
      delivered exactly and in order, whatever their payloads contain. */
  lemma {:induction false} FramesDelivered(gaps: seq<seq<byte>>, frames: seq<seq<byte>>, tail: seq<byte>)
    requires |gaps| == |frames| && First(tail) == None
    requires forall i :: 0 <= i < |frames| ==> WellFormed(frames[i]) && First(gaps[i] + frames[i]) == Some(|gaps[i]|)
    ensures Feed(Hunt(0), Stream(gaps, frames, tail)).1 == frames
    decreases |frames|
  {
    FeedIsParse(Stream(gaps, frames, tail));
    if frames == [] {
    } else {
      var rest := Stream(gaps[1..], frames[1..], tail);
      FramesDelivered(gaps[1..], frames[1..], tail);
      FeedIsParse(rest);
      ParseFrame(gaps[0], frames[0], rest);
    }
  }

  lemma {:induction false} ParseFrame(g: seq<byte>, f: seq<byte>, rest: seq<byte>)
    requires WellFormed(f) && First(g + f) == Some(|g|)
    ensures Parse(g + f + rest) == [f] + Parse(rest)
  {
    var s := g + f + rest;
    FirstIsFirst(g + f);
    MagicKept(g + f, rest, |g|);
    forall i | 0 <= i < |g| ensures !MagicAt(s, i) {
      assert !MagicAt(g + f, i);
      MagicKept(g + f, rest, i);
    }
    FirstIs(s, |g|);
    assert s[|g|..] == f + rest;
    FramedFrame(f, rest);
  }

  lemma {:induction false} FramedFrame(f: seq<byte>, rest: seq<byte>)
    requires WellFormed(f)
    ensures Framed(f + rest) == [f] + Parse(rest)
  {
    var t := f + rest;
    assert Rd32(t, 12) == Rd32(f, 12);
    assert t[..|f|] == f && t[|f|..] == rest;
  }

  /** A header with an impossible length costs exactly its 40 bytes. */
  lemma {:induction false} BogusSkips(h: seq<byte>, rest: seq<byte>)
    requires |h| == 40 && h[..8] == [2, 1, 4, 3, 6, 5, 8, 7] && (Rd32(h, 12) < 40 || Rd32(h, 12) > 2048)
    ensures Feed(Hunt(0), h + rest).1 == Feed(Hunt(0), rest).1
  {
    var s := h + rest;
    FeedIsParse(s);
    FeedIsParse(rest);
    assert s[..MAGIC_LEN] == h[..MAGIC_LEN];
    assert s[0..] == s && Rd32(s, 12) == Rd32(h, 12) && s[HDR_LEN..] == rest;
  }

  // ---------------------------------------------------------------- the code

  class Reassembler {
    const buf: array<byte>
    var len: nat
    var want: nat
    var mtch: nat

    ghost predicate Valid()
      reads this, buf
    {
      && buf.Length == MAX_FRAME && len < MAX_FRAME && Good(State())
      && want == (if len < HDR_LEN then 0 else Rd32(buf[..], 12) as nat)
      && (len > 0 ==> mtch == 0)
    }

    ghost function State(): Rx
      requires len <= buf.Length
      reads this, buf
    {
      if len == 0 then Hunt(mtch) else Collect(buf[..len])
    }

    constructor ()
      ensures Valid() && State() == Hunt(0) && fresh(buf)
    {
      buf := new byte[MAX_FRAME](_ => 0);
      len, want, mtch := 0, 0, 0;
    }

    method Reset()
      requires buf.Length == MAX_FRAME
      modifies this
      ensures Valid() && State() == Hunt(0)
    {
      len, want, mtch := 0, 0, 0;
    }

    /** The magic is complete: it goes into the buffer, and hunting ends. */
    method StartFrame()
      requires buf.Length == MAX_FRAME
      modifies this, buf
      ensures Valid() && State() == Collect(Magic())
    {
      for i := 0 to MAGIC_LEN
        invariant forall j :: 0 <= j < i ==> buf[j] == Magic()[j]
      {
        buf[i] := Magic()[i];
      }
      len, want, mtch := MAGIC_LEN, 0, 0;
      assert buf[..len] == Magic();
    }

    /** tlv_push: true when buf holds one complete frame of len bytes; Reset must follow. */
    method Push(b: byte) returns (done: bool)
      requires Valid()
      modifies this, buf
      ensures !done ==> Valid() && Step(old(State()), b) == (State(), [])
      ensures done ==> len <= MAX_FRAME && Step(old(State()), b) == (Hunt(0), [buf[..len]])
    {
      if len == 0 {
        HuntByte(b);
        return false;
      }
      done := CollectByte(b);
    }

    method HuntByte(b: byte)
      requires Valid() && len == 0
      modifies this, buf
      ensures Valid() && Step(old(State()), b) == (State(), [])
    {
      if b == Magic()[mtch] {
        mtch := mtch + 1;
        if mtch == MAGIC_LEN { StartFrame(); }
      } else {
        mtch := if b == Magic()[0] then 1 else 0;
      }
    }

    method CollectByte(b: byte) returns (done: bool)
      requires Valid() && len > 0
      modifies this, buf
      ensures !done ==> Valid() && Step(old(State()), b) == (State(), [])
      ensures done ==> len <= MAX_FRAME && Step(old(State()), b) == (Hunt(0), [buf[..len]])
    {
      StepGood(State(), b);
      ghost var g := buf[..len] + [b];
      buf[len] := b;
      len := len + 1;
      assert buf[..len] == g;
      assert len >= HDR_LEN ==> Rd32(buf[..], 12) == Rd32(g, 12);
      if want == 0 {
        if len < HDR_LEN { return false; }
        want := Rd32(buf[..], 12);
        if want < HDR_LEN || want > MAX_FRAME {
          Reset();
          return false;
        }
      }
      if len < want { return false; }
      len := want;
      want := 0;
      return true;
    }

    /** One byte of the receive loop of radar_thread: push, hand over a complete frame, reset. */
    method Receive(b: byte) returns (frames: seq<seq<byte>>)
      requires Valid()
      modifies this, buf
      ensures Valid() && (State(), frames) == Step(old(State()), b)
    {
      var done := Push(b);
      if !done { return []; }
      frames := [buf[..len]];
      Reset();
    }

    /** The receive loop over one chunk: the frames handed to on_frame. */
    method FeedChunk(chunk: seq<byte>) returns (frames: seq<seq<byte>>)
      requires Valid()
      modifies this, buf
      ensures Valid() && (State(), frames) == Feed(old(State()), chunk)
      ensures forall f :: f in frames ==> WellFormed(f)
    {
      frames := [];
      for i := 0 to |chunk|
        invariant Valid() && (State(), frames) == Feed(old(State()), chunk[..i])
        invariant forall f :: f in frames ==> WellFormed(f)
      {
        FeedSnoc(old(State()), chunk[..i], chunk[i]);
        assert chunk[..i] + [chunk[i]] == chunk[..i + 1];
        StepGood(State(), chunk[i]);
        var more := Receive(chunk[i]);
        frames := frames + more;
      }
      assert chunk[..|chunk|] == chunk;
    }
  }
}
