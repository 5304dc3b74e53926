/** Waiting for a response of the modem (ec801e_wait_response in drivers/ec801e/ec801e.c).

    Bytes from the UART are appended to a buffer that is searched after each of them. When it is
    full, its first half is dropped. The main result is that the answer is the one that searching
    the whole history of the stream would give, at the same byte. */
module Matcher {
  import opened Wrappers
  import opened Bits
  import opened CStrings

  datatype Answer = OK | EHOSTDOWN | EIO | ETIMEDOUT

  function Ascii(s: string): (r: Bytes)
    requires forall k :: 0 <= k < |s| ==> s[k] < 128 as char
    ensures |r| == |s| && forall k :: 0 <= k < |s| ==> r[k] == s[k] as int
  {
    seq(|s|, k requires 0 <= k < |s| => s[k] as int)
  }

  // ----- Texts and markers -----

  predicate At(text: Bytes, i: nat, m: Bytes) {
    i + |m| <= |text| && text[i..i + |m|] == m
  }

  /** strstr(text, m) != NULL */
  predicate Contains(text: Bytes, m: Bytes) {
    exists i: nat | i <= |text| :: At(text, i, m)
  }

  /** A marker argument may be NULL. */
  predicate Found(text: Bytes, m: Option<Bytes>) {
    m.Some? && Contains(text, m.value)
  }

  predicate ContainsAny(text: Bytes, a: Option<Bytes>, b: Option<Bytes>, c: Option<Bytes>) {
    Found(text, a) || Found(text, b) || Found(text, c)
  }

  function RDY(): Bytes { Ascii("RDY") }
  function BOOT_ROM(): Bytes { Ascii("^boot.rom") }
  function PB_DONE(): Bytes { Ascii("PB DONE") }
  function CME_ERROR(): Bytes { Ascii("CME ERROR") }

  predicate ContainsRebootMarker(text: Bytes) {
    Contains(text, RDY()) || Contains(text, BOOT_ROM()) || Contains(text, PB_DONE())
  }

  datatype Markers = Markers(ok1: Option<Bytes>, ok2: Option<Bytes>, ok3: Option<Bytes>, fail1: Option<Bytes>,
      fail2: Option<Bytes>)

  /** What a text says, if anything: success before reboot before failure. */
  function Verdict(ms: Markers, text: Bytes): Option<Answer> {
    if ContainsAny(text, ms.ok1, ms.ok2, ms.ok3) then Some(OK)
    else if ContainsRebootMarker(text) then Some(EHOSTDOWN)
    else if ContainsAny(text, ms.fail1, ms.fail2, Some(CME_ERROR())) then Some(EIO)
    else None
  }

  lemma ContainsIs(text: Bytes, m: Bytes)
    ensures Contains(text, m) <==> exists x: Bytes, y: Bytes :: text == x + m + y
  {
    if Contains(text, m) {
      var i: nat :| i <= |text| && At(text, i, m);
      assert text == text[..i] + m + text[i + |m|..];
    }
    if x: Bytes, y: Bytes :| text == x + m + y {
      assert At(text, |x|, m);
    }
  }

  /** What each verdict says, with the built-in markers spelled out. */
  lemma VerdictIs(ms: Markers, text: Bytes)
    ensures var ok := Found(text, ms.ok1) || Found(text, ms.ok2) || Found(text, ms.ok3);
      var reboot := Contains(text, [82, 68, 89]) || Contains(text, [94, 98, 111, 111, 116, 46, 114, 111, 109])
                    || Contains(text, [80, 66, 32, 68, 79, 78, 69]);
      var failure := Found(text, ms.fail1) || Found(text, ms.fail2)
                     || Contains(text, [67, 77, 69, 32, 69, 82, 82, 79, 82]);
      && (Verdict(ms, text) == Some(OK) <==> ok)
      && (Verdict(ms, text) == Some(EHOSTDOWN) <==> !ok && reboot)
      && (Verdict(ms, text) == Some(EIO) <==> !ok && !reboot && failure)
      && (Verdict(ms, text) == None <==> !ok && !reboot && !failure)
  {
    assert RDY() == [82, 68, 89] && PB_DONE() == [80, 66, 32, 68, 79, 78, 69];
    assert BOOT_ROM() == [94, 98, 111, 111, 116, 46, 114, 111, 109];
    assert CME_ERROR() == [67, 77, 69, 32, 69, 82, 82, 79, 82];
  }

  // ----- The window -----

  /** What is left in a buffer of outLen bytes, with its terminator, after a history of the stream. */
  function Window(outLen: nat, history: Bytes): (w: Bytes)
    ensures |w| < outLen || w == []
    decreases |history|
  {
    if history == [] || outLen <= 1 then []
    else
      var w, ch := Window(outLen, history[..|history| - 1]), history[|history| - 1];
      (if |w| < outLen - 1 then w else w[outLen / 2..]) + [ch]
  }

  predicate Suffix(w: Bytes, s: Bytes) {
    |w| <= |s| && w == s[|s| - |w|..]
  }

  /** The window is the end of the history: all of it, or at least half a buffer. */
  lemma {:induction false} WindowIsSuffix(outLen: nat, history: Bytes)
    requires outLen >= 2
    ensures var w := Window(outLen, history);
      && Suffix(w, history) && |w| <= outLen - 1
      && (|w| == |history| || outLen - outLen / 2 <= |w|)
    decreases |history|
  {
    if history != [] {
      var before := history[..|history| - 1];
      WindowIsSuffix(outLen, before);
      var w := Window(outLen, before);
      SuffixGrows(w, before, if |w| < outLen - 1 then 0 else outLen / 2, history);
    }
  }

  /** Drops the first d bytes of a suffix and appends the next byte. */
  lemma SuffixGrows(w: Bytes, before: Bytes, d: nat, s: Bytes)
    requires Suffix(w, before) && d <= |w| && s != [] && s[..|s| - 1] == before
    ensures Suffix(w[d..] + [s[|s| - 1]], s)
    ensures d == 0 ==> w[d..] == w
  {
    var n := |before| - |w| + d;
    assert w[d..] == before[n..];
    assert s == before + [s[|s| - 1]];
    assert s[n..] == before[n..] + [s[|s| - 1]];
  }

  /** The text that is searched: the window as a string, or the whole history. */
  function Text(whole: bool, outLen: nat, history: Bytes): Bytes {
    if whole then history else CString(Window(outLen, history))
  }

  /** The first byte after which the text gives a verdict, and the verdict. */
  function FirstVerdict(whole: bool, outLen: nat, ms: Markers, history: Bytes): (r: Option<(nat, Answer)>)
    ensures r.Some? ==> 1 <= r.value.0 <= |history| && r.value.1 != ETIMEDOUT
    decreases |history|
  {
    if history == [] then None
    else
      var earlier := FirstVerdict(whole, outLen, ms, history[..|history| - 1]);
      if earlier.Some? then earlier
      else
        var v := Verdict(ms, Text(whole, outLen, history));
        if v.Some? then Some((|history|, v.value)) else None
  }

  /** The verdicts on the texts after 1, 2, ... bytes. */
  ghost function Verdicts(whole: bool, outLen: nat, ms: Markers, s: Bytes): (vs: seq<Option<Answer>>)
    ensures |vs| == |s|
    decreases |s|
  {
    if s == [] then []
    else Verdicts(whole, outLen, ms, s[..|s| - 1]) + [Verdict(ms, Text(whole, outLen, s))]
  }

  lemma {:induction false} VerdictsAt(whole: bool, outLen: nat, ms: Markers, s: Bytes, k: nat)
    requires 1 <= k <= |s|
    ensures Verdicts(whole, outLen, ms, s)[k - 1] == Verdict(ms, Text(whole, outLen, s[..k]))
    decreases |s|
  {
    if k == |s| {
      assert s[..k] == s;
    } else {
      assert s[..|s| - 1][..k] == s[..k];
      VerdictsAt(whole, outLen, ms, s[..|s| - 1], k);
    }
  }

  /** The number of the first verdict that there is, from 1, and that verdict. */
  ghost predicate IsFirst(vs: seq<Option<Answer>>, first: Option<(nat, Answer)>) {
    match first
    case None => forall k :: 0 <= k < |vs| ==> vs[k] == None
    case Some((n, a)) => 1 <= n <= |vs| && vs[n - 1] == Some(a) && forall k :: 0 <= k < n - 1 ==> vs[k] == None
  }

  lemma FirstAppends(vs: seq<Option<Answer>>, v: Option<Answer>, before: Option<(nat, Answer)>,
                     first: Option<(nat, Answer)>)
    requires IsFirst(vs, before)
    requires first == if before.Some? then before else if v.Some? then Some((|vs| + 1, v.value)) else None
    ensures IsFirst(vs + [v], first)
  {
  }

  lemma FirstUnique(vs: seq<Option<Answer>>, a: Option<(nat, Answer)>, b: Option<(nat, Answer)>)
    requires IsFirst(vs, a) && IsFirst(vs, b)
    ensures a == b
  {
  }

  /** The first verdict is one with none before it, and there is none exactly if no byte gives one. */
  lemma {:induction false} FirstVerdictIs(whole: bool, outLen: nat, ms: Markers, s: Bytes, first: Option<(nat, Answer)>)
    ensures FirstVerdict(whole, outLen, ms, s) == first <==> IsFirst(Verdicts(whole, outLen, ms, s), first)
    decreases |s|
  {
    var r := FirstVerdict(whole, outLen, ms, s);
    if s != [] {
      var before := s[..|s| - 1];
      var earlier := FirstVerdict(whole, outLen, ms, before);
      FirstVerdictIs(whole, outLen, ms, before, earlier);
      FirstAppends(Verdicts(whole, outLen, ms, before), Verdict(ms, Text(whole, outLen, s)), earlier, r);
    }
    if IsFirst(Verdicts(whole, outLen, ms, s), first) { FirstUnique(Verdicts(whole, outLen, ms, s), r, first); }
  }

  // ----- The window decides as the history does -----

  /** A text that contains a marker only since its last byte ends in it. */
  lemma NewAtEnd(s: Bytes, m: Bytes)
    requires s != [] && Contains(s, m) && !Contains(s[..|s| - 1], m)
    ensures Suffix(m, s)
  {
    var i: nat :| i <= |s| && At(s, i, m);
    if i + |m| < |s| {
      assert At(s[..|s| - 1], i, m);
      assert false;
    }
  }

  lemma SuffixContains(w: Bytes, s: Bytes, m: Bytes)
    requires Suffix(w, s) && Contains(w, m)
    ensures Contains(s, m)
  {
    var i: nat :| i <= |w| && At(w, i, m);
    assert At(s, |s| - |w| + i, m);
  }

  lemma ShorterSuffix(m: Bytes, w: Bytes, s: Bytes)
    requires Suffix(m, s) && Suffix(w, s) && |m| <= |w|
    ensures Contains(w, m)
  {
    assert w[|w| - |m|..] == s[|s| - |m|..];
    assert At(w, |w| - |m|, m);
  }

  /** A marker that the history did not contain before its last byte is in the window exactly
      when it is in the history. */
  lemma MarkerSeen(outLen: nat, s: Bytes, m: Bytes)
    requires outLen >= 2 && s != [] && |m| <= outLen - outLen / 2 && !Contains(s[..|s| - 1], m)
    ensures Contains(Window(outLen, s), m) <==> Contains(s, m)
  {
    var w := Window(outLen, s);
    WindowIsSuffix(outLen, s);
    if Contains(w, m) { SuffixContains(w, s, m); }
    if Contains(s, m) {
      NewAtEnd(s, m);
      ShorterSuffix(m, w, s);
    }
  }

  predicate Fits(outLen: nat, m: Option<Bytes>) {
    m.Some? ==> |m.value| <= outLen - outLen / 2
  }

  /** All markers fit in half a buffer; the longest built-in ones have nine characters. */
  ghost predicate AllFit(outLen: nat, ms: Markers) {
    && outLen >= 17
    && Fits(outLen, ms.ok1) && Fits(outLen, ms.ok2) && Fits(outLen, ms.ok3) && Fits(outLen, ms.fail1)
        && Fits(outLen, ms.fail2)
  }

  lemma FoundSeen(outLen: nat, s: Bytes, m: Option<Bytes>)
    requires outLen >= 2 && s != [] && Fits(outLen, m) && !Found(s[..|s| - 1], m)
    ensures Found(Window(outLen, s), m) <==> Found(s, m)
  {
    if m.Some? { MarkerSeen(outLen, s, m.value); }
  }

  lemma SameVerdict(outLen: nat, ms: Markers, s: Bytes)
    requires AllFit(outLen, ms) && s != [] && Verdict(ms, s[..|s| - 1]) == None
    ensures Verdict(ms, Window(outLen, s)) == Verdict(ms, s)
  {
    FoundSeen(outLen, s, ms.ok1);
    FoundSeen(outLen, s, ms.ok2);
    FoundSeen(outLen, s, ms.ok3);
    FoundSeen(outLen, s, ms.fail1);
    FoundSeen(outLen, s, ms.fail2);
    FoundSeen(outLen, s, Some(CME_ERROR()));
    MarkerSeen(outLen, s, RDY());
    MarkerSeen(outLen, s, BOOT_ROM());
    MarkerSeen(outLen, s, PB_DONE());
  }

  /** For a stream without NULs and markers that fit in half a buffer, the window gives the
      verdict of the whole history, at the same byte. */
  lemma {:induction false} WindowDecides(outLen: nat, ms: Markers, s: Bytes)
    requires AllFit(outLen, ms) && 0 !in s
    ensures FirstVerdict(false, outLen, ms, s) == FirstVerdict(true, outLen, ms, s)
    decreases |s|
  {
    if s != [] {
      var before := s[..|s| - 1];
      WindowDecides(outLen, ms, before);
      WindowIsSuffix(outLen, s);
      NoNul(Window(outLen, s));
      if FirstVerdict(true, outLen, ms, before) == None {
        if before != [] { SameVerdict(outLen, ms, s); }
      }
    }
  }

  // ----- Where it does not -----

  /** Until the buffer is full nothing is lost; the next byte leaves half a buffer. */
  lemma {:induction false} WindowLength(outLen: nat, s: Bytes)
    requires outLen >= 2 && |s| <= outLen
    ensures |Window(outLen, s)| == if |s| < outLen then |s| else outLen - outLen / 2
    decreases |s|
  {
    if s != [] { WindowLength(outLen, s[..|s| - 1]); }
  }

  ghost predicate SeenInTime(outLen: nat, m: Bytes, s: Bytes)
    requires s != []
  {
    !Contains(s[..|s| - 1], m) ==> (Contains(Window(outLen, s), m) <==> Contains(s, m))
  }

  /** Half a buffer is sharp: a marker is always seen when it arrives if and only if it is no
      longer than that. A longer one can be missed, when its last byte overflows the buffer. */
  lemma MarkerBound(outLen: nat, m: Bytes)
    requires outLen >= 2 && m != [] && 0 !in m
    ensures |m| <= outLen - outLen / 2 <==> forall s: Bytes :: s != [] && 0 !in s ==> SeenInTime(outLen, m, s)
  {
    if |m| <= outLen - outLen / 2 {
      forall s: Bytes | s != []
        ensures SeenInTime(outLen, m, s)
      {
        if !Contains(s[..|s| - 1], m) { MarkerSeen(outLen, s, m); }
      }
    } else {
      var s := Missed(outLen, m);
      assert !SeenInTime(outLen, m, s);
    }
  }

  lemma NotYet(filler: Bytes, m: Bytes, i: nat)
    requires m != [] && forall k :: 0 <= k < |filler| ==> filler[k] != m[0]
    ensures !At((filler + m)[..|filler| + |m| - 1], i, m)
  {
    var t := (filler + m)[..|filler| + |m| - 1];
    if i + |m| <= |t| { assert t[i..i + |m|][0] == filler[i]; }
  }

  lemma Missed(outLen: nat, m: Bytes) returns (s: Bytes)
    requires outLen >= 2 && |m| > outLen - outLen / 2 && 0 !in m
    ensures s != [] && 0 !in s && !Contains(s[..|s| - 1], m) && Contains(s, m) && !Contains(Window(outLen, s), m)
  {
    var other: byte := if m[0] == 1 then 2 else 1;
    var n := if |m| < outLen then outLen - |m| else 0;
    var filler: Bytes := seq(n, _ => other);
    s := filler + m;
    assert At(s, n, m);
    var before := s[..|s| - 1];
    forall i: nat
      ensures !At(before, i, m)
    {
      NotYet(filler, m, i);
    }
    if |m| < outLen { WindowLength(outLen, s); } else { WindowIsSuffix(outLen, s); }
  }

  // ----- NULs -----

  /** Where the window begins after k bytes: every outLen / 2 bytes it moves on by as many. */
  function Start(outLen: nat, k: nat): (r: nat)
    requires outLen >= 2
    ensures r <= k
    decreases k
  {
    if k < outLen then 0 else Start(outLen, k - outLen / 2) + outLen / 2
  }

  lemma {:induction false} StartMoves(outLen: nat, k: nat)
    requires outLen >= 2
    ensures k - Start(outLen, k) <= outLen - 1
    ensures Start(outLen, k + 1) == Start(outLen, k) + (if k - Start(outLen, k) == outLen - 1 then outLen / 2 else 0)
    decreases k
  {
    if k >= outLen { StartMoves(outLen, k - outLen / 2); }
  }

  /** The window is the stream from there on. So byte q of the stream is in the buffer after k bytes
      exactly if Start(outLen, k) <= q < k. */
  lemma {:induction false} WindowIs(outLen: nat, s: Bytes)
    requires outLen >= 2
    ensures Window(outLen, s) == s[Start(outLen, |s|)..]
    decreases |s|
  {
    if s != [] {
      var before := s[..|s| - 1];
      WindowIs(outLen, before);
      StartMoves(outLen, |before|);
      WindowIsSuffix(outLen, s);
    }
  }

  /** Over the first outLen - 1 bytes it stays at the front; then it moves on by half a buffer at once,
      and again every half buffer. */
  lemma {:induction false} StartIs(outLen: nat, k: nat, n: nat)
    requires outLen >= 2
    requires if k < outLen then n == 0 else n >= 1 && 0 <= k - outLen - (n - 1) * (outLen / 2) < outLen / 2
    ensures Start(outLen, k) == n * (outLen / 2)
    decreases k
  {
    if k >= outLen { StartIs(outLen, k - outLen / 2, n - 1); }
  }

  lemma PrefixContains(t: Bytes, w: Bytes, m: Bytes)
    requires t <= w && Contains(t, m)
    ensures Contains(w, m)
  {
    var i: nat :| i <= |t| && At(t, i, m);
    assert At(w, i, m);
  }

  /** What is in the string of the buffer is in the history, and if the string ends at a NUL, it was
      there before the last byte. */
  lemma PrefixSeen(outLen: nat, s: Bytes, m: Bytes)
    requires outLen >= 2 && s != [] && Contains(CString(Window(outLen, s)), m)
    ensures Contains(s, m) && (0 in Window(outLen, s) ==> Contains(s[..|s| - 1], m))
  {
    var w := Window(outLen, s);
    WindowIsSuffix(outLen, s);
    PrefixContains(CString(w), w, m);
    SuffixContains(w, s, m);
    if 0 in w {
      StringEnds(w);
      PrefixContains(CString(w), w[..|w| - 1], m);
      SuffixContains(w[..|w| - 1], s[..|s| - 1], m);
    }
  }

  lemma FoundPrefix(outLen: nat, s: Bytes, m: Option<Bytes>)
    requires outLen >= 2 && s != [] && Found(CString(Window(outLen, s)), m)
    ensures Found(s, m) && (0 in Window(outLen, s) ==> Found(s[..|s| - 1], m))
  {
    PrefixSeen(outLen, s, m.value);
  }

  /** The buffer gives no verdict if the history gives none; nor, if it has a NUL, before the history
      gave one. */
  lemma NoVerdict(outLen: nat, ms: Markers, s: Bytes)
    requires outLen >= 2 && s != []
    requires Verdict(ms, s) == None || (0 in Window(outLen, s) && Verdict(ms, s[..|s| - 1]) == None)
    ensures Verdict(ms, CString(Window(outLen, s))) == None
  {
    var text := CString(Window(outLen, s));
    if Verdict(ms, text) != None {
      var m := OneFound(ms, text);
      FoundPrefix(outLen, s, m);
    }
  }

  ghost predicate IsMarker(ms: Markers, m: Option<Bytes>) {
    || m == ms.ok1 || m == ms.ok2 || m == ms.ok3 || m == ms.fail1 || m == ms.fail2
    || m == Some(CME_ERROR()) || m == Some(RDY()) || m == Some(BOOT_ROM()) || m == Some(PB_DONE())
  }

  /** A verdict is given exactly when some marker is found. */
  lemma OneFound(ms: Markers, text: Bytes) returns (m: Option<Bytes>)
    requires Verdict(ms, text) != None
    ensures IsMarker(ms, m) && Found(text, m)
  {
    m := if Found(text, ms.ok1) then ms.ok1 else if Found(text, ms.ok2) then ms.ok2
         else if Found(text, ms.ok3) then ms.ok3 else if Found(text, ms.fail1) then ms.fail1
         else if Found(text, ms.fail2) then ms.fail2 else if Contains(text, RDY()) then Some(RDY())
         else if Contains(text, BOOT_ROM()) then Some(BOOT_ROM())
         else if Contains(text, PB_DONE()) then Some(PB_DONE()) else Some(CME_ERROR());
  }

  /** No NUL is in the buffer at the byte of a verdict. */
  ghost predicate Unhidden(outLen: nat, s: Bytes, first: Option<(nat, Answer)>)
    requires outLen >= 2
  {
    first.Some? ==> first.value.0 <= |s| && 0 !in s[Start(outLen, first.value.0)..first.value.0]
  }

  ghost predicate DecidedExactly(outLen: nat, ms: Markers, s: Bytes)
    requires outLen >= 2
  {
    var first := FirstVerdict(true, outLen, ms, s);
    FirstVerdict(false, outLen, ms, s) == first <==> Unhidden(outLen, s, first)
  }

  /** Once the history has given a verdict, it stays decided whether the buffer gave it too. */
  lemma AfterVerdict(outLen: nat, ms: Markers, s: Bytes)
    requires outLen >= 2 && s != [] && FirstVerdict(true, outLen, ms, s[..|s| - 1]).Some?
    requires DecidedExactly(outLen, ms, s[..|s| - 1])
    ensures DecidedExactly(outLen, ms, s)
  {
    var before := s[..|s| - 1];
    var n := FirstVerdict(true, outLen, ms, before).value.0;
    assert before[Start(outLen, n)..n] == s[Start(outLen, n)..n];
  }

  lemma AtVerdict(outLen: nat, ms: Markers, s: Bytes)
    requires AllFit(outLen, ms) && s != [] && Verdict(ms, s[..|s| - 1]) == None
    requires FirstVerdict(true, outLen, ms, s[..|s| - 1]) == None == FirstVerdict(false, outLen, ms, s[..|s| - 1])
    ensures DecidedExactly(outLen, ms, s)
  {
    WindowIs(outLen, s);
    assert s[Start(outLen, |s|)..|s|] == Window(outLen, s);
    if Verdict(ms, s) == None || 0 in Window(outLen, s) {
      NoVerdict(outLen, ms, s);
    } else {
      NoNul(Window(outLen, s));
      SameVerdict(outLen, ms, s);
    }
  }

  /** For any stream, and markers that fit in half a buffer, none of them empty: the window gives the
      verdict of the whole history at the same byte if and only if the history never gives one, or
      no NUL is in the buffer when it does. */
  lemma {:induction false} WindowDecidesExactly(outLen: nat, ms: Markers, s: Bytes)
    requires AllFit(outLen, ms) && Verdict(ms, []) == None
    ensures var first := FirstVerdict(true, outLen, ms, s);
      FirstVerdict(false, outLen, ms, s) == first <==> Unhidden(outLen, s, first)
    decreases |s|
  {
    if s != [] {
      var before := s[..|s| - 1];
      WindowDecidesExactly(outLen, ms, before);
      if FirstVerdict(true, outLen, ms, before).Some? {
        AfterVerdict(outLen, ms, s);
      } else {
        NoVerdictYet(outLen, ms, before);
        AtVerdict(outLen, ms, s);
      }
    }
  }

  lemma NoVerdictYet(outLen: nat, ms: Markers, s: Bytes)
    requires FirstVerdict(true, outLen, ms, s) == None && Verdict(ms, []) == None
    ensures Verdict(ms, s) == None
  {
  }

  lemma VerdictStays(ms: Markers, t: Bytes, s: Bytes)
    requires t <= s && Verdict(ms, t) != None
    ensures Verdict(ms, s) != None
  {
    var m := OneFound(ms, t);
    PrefixContains(t, s, m.value);
  }

  lemma {:induction false} NoneSoFar(outLen: nat, ms: Markers, s: Bytes)
    requires outLen >= 2 && Verdict(ms, s) == None
    ensures FirstVerdict(false, outLen, ms, s) == None
    decreases |s|
  {
    if s != [] {
      var before := s[..|s| - 1];
      if Verdict(ms, before) != None { VerdictStays(ms, before, s); }
      NoneSoFar(outLen, ms, before);
      NoVerdict(outLen, ms, s);
    }
  }

  /** A NUL hides all that is behind it as long as it is in the buffer: if nothing up to it has given
      a verdict, nothing does. */
  lemma {:induction false} NulHides(outLen: nat, ms: Markers, s: Bytes, q: nat)
    requires outLen >= 2 && q < |s| && s[q] == 0 && Start(outLen, |s|) <= q && Verdict(ms, s[..q + 1]) == None
    ensures FirstVerdict(false, outLen, ms, s) == None
    decreases |s|
  {
    var before := s[..|s| - 1];
    if |s| == q + 1 {
      assert s[..q + 1] == s;
      NoneSoFar(outLen, ms, s);
    } else {
      StartMoves(outLen, |before|);
      assert before[..q + 1] == s[..q + 1];
      NulHides(outLen, ms, before, q);
      NulCuts(outLen, ms, s, q);
    }
  }

  lemma NulCuts(outLen: nat, ms: Markers, s: Bytes, q: nat)
    requires outLen >= 2 && q < |s| && s[q] == 0 && Start(outLen, |s|) <= q && Verdict(ms, s[..q + 1]) == None
    ensures Verdict(ms, CString(Window(outLen, s))) == None
  {
    var from, w := Start(outLen, |s|), Window(outLen, s);
    WindowIs(outLen, s);
    CStringIs(w, q - from);
    var shown := w[..q - from];
    assert shown == s[from..q];
    var text := CString(w);
    if Verdict(ms, text) != None {
      var m := OneFound(ms, text);
      PrefixContains(text, shown, m.value);
      SuffixContains(shown, s[..q], m.value);
      PrefixContains(s[..q], s[..q + 1], m.value);
    }
  }

  /** What an answer says of the string that is in the buffer when it is given. */
  ghost predicate Means(ms: Markers, text: Bytes, answer: Answer) {
    var ok := Found(text, ms.ok1) || Found(text, ms.ok2) || Found(text, ms.ok3);
    var reboot := Contains(text, Ascii("RDY")) || Contains(text, Ascii("^boot.rom"))
        || Contains(text, Ascii("PB DONE"));
    var failure := Found(text, ms.fail1) || Found(text, ms.fail2) || Contains(text, Ascii("CME ERROR"));
    match answer
    case OK => ok
    case EHOSTDOWN => !ok && reboot
    case EIO => !ok && !reboot && failure
    case ETIMEDOUT => !ok && !reboot && !failure
  }

  lemma VerdictMeans(ms: Markers, text: Bytes, answer: Answer)
    ensures Means(ms, text, answer) <==> Verdict(ms, text) == if answer == ETIMEDOUT then None else Some(answer)
  {
  }

  /** At every byte before the last, the string in the buffer had none of the markers. */
  ghost predicate SilentBefore(outLen: nat, ms: Markers, received: Bytes) {
    forall k :: 1 <= k < |received| ==> Silent(ms, CString(Window(outLen, received[..k])))
  }

  ghost predicate Silent(ms: Markers, text: Bytes) {
    && !Found(text, ms.ok1) && !Found(text, ms.ok2) && !Found(text, ms.ok3)
    && !Contains(text, Ascii("RDY")) && !Contains(text, Ascii("^boot.rom")) && !Contains(text, Ascii("PB DONE"))
    && !Found(text, ms.fail1) && !Found(text, ms.fail2) && !Contains(text, Ascii("CME ERROR"))
  }

  lemma NoneBefore(outLen: nat, ms: Markers, received: Bytes)
    requires received == [] || FirstVerdict(false, outLen, ms, received[..|received| - 1]) == None
    ensures SilentBefore(outLen, ms, received)
  {
    if received != [] {
      var before := received[..|received| - 1];
      FirstVerdictIs(false, outLen, ms, before, None);
      forall k | 1 <= k < |received|
        ensures Silent(ms, CString(Window(outLen, received[..k])))
      {
        VerdictsAt(false, outLen, ms, before, k);
        assert before[..k] == received[..k];
        assert Verdict(ms, CString(Window(outLen, received[..k]))) == None;
      }
    }
  }

  // ----- The driver -----

  /** The UART of the modem and the clock. What arrives, and when, is left open by the bodies. */
  class Uart {
    /** The bytes still to arrive. */
    var incoming: Bytes
    var now: int

    constructor (incoming: Bytes)
      ensures this.incoming == incoming
    {
      this.incoming := incoming;
      now := 0;
    }

    method Uptime() returns (t: int)
      modifies this`now
      ensures old(now) <= now && t == now
    {
      t :| now <= t;
      now := t;
    }

    method Sleep(ms: nat)
      modifies this`now
      ensures old(now) + ms <= now
    {
      var late: nat :| true;
      now := now + ms + late;
    }

    /** uart_poll_in: the next byte, if it is there. */
    method PollIn() returns (ch: Option<byte>)
      modifies this
      ensures old(now) <= now
      ensures if ch.Some? then old(incoming) != [] && ch.value == old(incoming)[0] && incoming == old(incoming)[1..]
              else incoming == old(incoming)
    {
      var there: bool :| there || !there;
      ch := None;
      if there && incoming != [] {
        ch := Some(incoming[0]);
        incoming := incoming[1..];
      }
      var t := Uptime();
    }
  }

  /** memmove(out, out + from, n) */
  method MoveToFront(out: array<byte>, from: nat, n: nat)
    requires from + n <= out.Length
    modifies out
    ensures out[..] == old(out[from..from + n]) + old(out[n..])
  {
    forall k | 0 <= k < n { out[k] := out[from + k]; }
  }

  /** Appends a byte to the string of length pos in out, or to its second half if out is full. */
  method Append(out: array<byte>, outLen: nat, pos: nat, ch: byte, ghost history: Bytes) returns (pos': nat)
    requires 2 <= outLen <= out.Length && pos < outLen && out[..pos] == Window(outLen, history)
    modifies out
    ensures pos' < outLen && out[pos'] == 0 && out[..pos'] == Window(outLen, history + [ch])
    ensures out[outLen..] == old(out[outLen..])
  {
    ghost var w := out[..pos];
    assert (history + [ch])[..|history|] == history;
    pos' := pos;
    if pos' >= outLen - 1 {
      MoveToFront(out, outLen / 2, outLen - outLen / 2 - 1);
      pos' := outLen - outLen / 2 - 1;
      assert out[..pos'] == w[outLen / 2..];
      assert out[outLen..] == old(out[outLen..]);
    }
    ghost var kept := out[..pos'];
    out[pos'] := ch;
    pos' := pos' + 1;
    out[pos'] := 0;
    assert out[..pos'] == kept + [ch];
  }

  /** The string in out is the window of the history. */
  ghost predicate Holds(out: array<byte>, outLen: nat, pos: nat, history: Bytes)
    reads out
  {
    outLen <= out.Length && pos < outLen && out[pos] == 0 && out[..pos] == Window(outLen, history)
  }

  lemma HeldString(out: array<byte>, outLen: nat, pos: nat, history: Bytes)
    requires Holds(out, outLen, pos, history)
    ensures CString(out[..]) == CString(Window(outLen, history))
  {
    CStringIs(out[..], pos);
    assert out[..][..pos] == out[..pos];
  }

  /** One byte received: what the buffer then holds as a string. */
  method Take(out: array<byte>, outLen: nat, pos: nat, ch: byte, ghost history: Bytes) returns (pos': nat)
    requires if outLen > 0 then Holds(out, outLen, pos, history) else 0 in out[..]
    modifies out
    ensures outLen > 0 ==> Holds(out, outLen, pos', history + [ch])
    ensures outLen == 0 ==> out[..] == old(out[..])
  {
    pos' := pos;
    if outLen > 1 { pos' := Append(out, outLen, pos, ch, history); }
  }

  /** The three searches, in the order of the source. */
  method Search(ms: Markers, text: Bytes) returns (v: Option<Answer>)
    ensures v == Verdict(ms, text)
  {
    if ContainsAny(text, ms.ok1, ms.ok2, ms.ok3) { return Some(OK); }
    if ContainsRebootMarker(text) { return Some(EHOSTDOWN); }
    if ContainsAny(text, ms.fail1, ms.fail2, Some(CME_ERROR())) { return Some(EIO); }
    return None;
  }

  /** What was received has given no verdict. */
  ghost predicate Undecided(out: array?<byte>, outLen: nat, ms: Markers, text: Bytes, received: Bytes) {
    out != null ==>
      if outLen > 0 then FirstVerdict(false, outLen, ms, received) == None
      else received == [] || Verdict(ms, text) == None
  }

  /** Its last byte has given the first verdict. */
  ghost predicate Decided(outLen: nat, ms: Markers, text: Bytes, received: Bytes, answer: Answer) {
    if outLen > 0 then FirstVerdict(false, outLen, ms, received) == Some((|received|, answer))
    else |received| == 1 && Verdict(ms, text) == Some(answer)
  }

  /** What is known at the end. */
  lemma Answered(out: array<byte>, outLen: nat, ms: Markers, was: Bytes, text: Bytes, received: Bytes, answer: Answer)
    requires text == if outLen > 0 then CString(Window(outLen, received)) else was
    requires if answer == ETIMEDOUT then Undecided(out, outLen, ms, was, received)
             else Decided(outLen, ms, was, received, answer)
    ensures received == [] ==> answer == ETIMEDOUT
    ensures received != [] ==> Means(ms, text, answer)
    ensures outLen > 0 ==> SilentBefore(outLen, ms, received)
    ensures outLen == 0 && answer != ETIMEDOUT ==> |received| == 1
  {
    VerdictMeans(ms, text, answer);
    if outLen > 0 { NoneBefore(outLen, ms, received); }
  }

  lemma NextUndecided(out: array<byte>, outLen: nat, ms: Markers, text: Bytes, before: Bytes, received: Bytes,
                      v: Option<Answer>)
    requires received != [] && before == received[..|received| - 1] && Undecided(out, outLen, ms, text, before)
    requires v == if outLen > 0 then Verdict(ms, CString(Window(outLen, received))) else Verdict(ms, text)
    ensures if v.Some? then Decided(outLen, ms, text, received, v.value) else Undecided(out, outLen, ms, text, received)
  {
  }

  /** Reads until the text in the buffer gives a verdict or the time is up. The answer is the
      first verdict on what was received, given at its last byte; without a buffer there is none.
      A buffer of no bytes is never written, and what it held before is searched at each byte. */
  method WaitResponse(uart: Uart, ms: Markers, timeoutMs: int, out: array?<byte>, outLen: nat)
    returns (answer: Answer, ghost received: Bytes)
    requires out != null ==> outLen <= out.Length && (outLen == 0 ==> 0 in out[..])
    modifies uart, out
    ensures |received| <= |old(uart.incoming)|
    ensures received == old(uart.incoming)[..|received|] && uart.incoming == old(uart.incoming)[|received|..]
    ensures answer == ETIMEDOUT ==> old(uart.now) + timeoutMs <= uart.now
    ensures out == null ==> answer == ETIMEDOUT
    ensures out != null ==>
      var text := old(CString(out[..]));
      if answer == ETIMEDOUT then Undecided(out, outLen, ms, text, received)
      else Decided(outLen, ms, text, received, answer)
    ensures out != null ==>
      if outLen > 0 then CString(out[..]) == CString(Window(outLen, received)) else out[..] == old(out[..])
    // What the answers mean, for the string that is in the buffer when the call returns
    ensures received == [] ==> answer == ETIMEDOUT
    ensures out != null && received != [] ==> Means(ms, CString(out[..]), answer)
    ensures out != null && outLen > 0 ==> SilentBefore(outLen, ms, received)
    ensures out != null && outLen == 0 && answer != ETIMEDOUT ==> |received| == 1
  {
    var start := uart.Uptime();
    var deadline := start + timeoutMs;
    var pos: nat := 0;
    received := [];
    ghost var stream, text := uart.incoming, if out == null then [] else CString(out[..]);
    if out != null && outLen > 0 { out[0] := 0; }
    while true
      invariant |received| <= |stream| && received == stream[..|received|] && uart.incoming == stream[|received|..]
      invariant out != null ==> if outLen > 0 then Holds(out, outLen, pos, received) else out[..] == old(out[..])
      invariant Undecided(out, outLen, ms, text, received) && old(uart.now) <= start
      decreases |uart.incoming|, deadline - uart.now
    {
      var t := uart.Uptime();
      if t >= deadline { break; }
      var ch := uart.PollIn();
      if ch.Some? {
        ghost var before := received;
        received := received + [ch.value];
        assert received == stream[..|received|];
        if out != null {
          pos := Take(out, outLen, pos, ch.value, before);
          if outLen > 0 { HeldString(out, outLen, pos, received); }
          var v := Search(ms, CString(out[..]));
          NextUndecided(out, outLen, ms, text, before, received, v);
          if v.Some? {
            Answered(out, outLen, ms, text, CString(out[..]), received, v.value);
            return v.value, received;
          }
        }
      } else {
        uart.Sleep(10);
      }
    }
    if out != null {
      if outLen > 0 { HeldString(out, outLen, pos, received); }
      Answered(out, outLen, ms, text, CString(out[..]), received, ETIMEDOUT);
    }
    return ETIMEDOUT, received;
  }
}
