/** What masking guarantees: the spans partition the input and are exactly the
    shapes found, nothing shaped like a secret survives, and the room the
    bound promises is always enough. */
module MaskProofs {
  import opened Words
  import opened Mask
  import opened MaskShapes

  // The spans.

  lemma {:induction false} SpansFromApart(b: bytes, i: nat, edge: nat)
    requires edge <= i <= |b|
    ensures Apart(SpansFrom(b, i, edge), |b|)
    ensures SpansFrom(b, i, edge) != [] ==> SpansFrom(b, i, edge)[0].from >= edge
    decreases |b| - i
  {
    hide SpanAt;
    if i < |b| {
      match SpanAt(b, i, edge) {
        case Some(span) =>
          var rest := SpansFrom(b, span.to, span.to);
          SpansFromApart(b, span.to, span.to);
          var all := [span] + rest;
          forall k | 0 <= k < |all| ensures all[k].from + MIN_SPAN <= all[k].to <= |b| {
            assert k > 0 ==> all[k] == rest[k - 1];
          }
          forall k | 0 < k < |all| ensures all[k - 1].to <= all[k].from {
            assert all[k] == rest[k - 1];
            assert k > 1 ==> all[k - 1] == rest[k - 2];
          }
        case None => SpansFromApart(b, i + 1, edge);
      }
    }
  }

  /** No secret and no phone number begins at `q`. */
  ghost predicate Plain(b: bytes, q: nat) {
    forall n: nat :: !SecretShape(b, q, n) && !PhoneShape(b, q, n)
  }

  /** The span is the shape at `at`: a secret or a phone number where it begins,
      or the address around the `@` there, no byte of whose local part begins
      either. */
  ghost predicate ShapeAt(b: bytes, s: Span, at: nat) {
    && s.from <= at < s.to <= |b|
    && match s.kind
       case Secret => at == s.from && SecretShape(b, at, s.to - s.from)
       case Pii =>
         || (at == s.from && PhoneShape(b, at, s.to - s.from))
         || (EmailShape(b, at, at - s.from, s.to - s.from) && forall q :: s.from <= q < at ==> Plain(b, q))
  }

  ghost predicate Shape(b: bytes, s: Span) {
    exists at :: ShapeAt(b, s, at)
  }

  lemma PlainExact(b: bytes, q: nat)
    requires q < |b|
    ensures Plain(b, q) <==> MatchSecret(b, q).None? && PhoneAt(b, q).None?
  {
    hide SecretShape, PhoneShape, MatchSecret, PhoneAt;
    forall n: nat ensures (MatchSecret(b, q) == Some(n) <==> SecretShape(b, q, n)) && (PhoneAt(b, q) == Some(n) <==> PhoneShape(b, q, n)) {
      SecretExact(b, q, n);
      PhoneExact(b, q, n);
    }
    if MatchSecret(b, q).Some? {
      assert SecretShape(b, q, MatchSecret(b, q).value);
    }
    if PhoneAt(b, q).Some? {
      assert PhoneShape(b, q, PhoneAt(b, q).value);
    }
  }

  lemma SpanAtShape(b: bytes, i: nat, edge: nat)
    requires edge <= i < |b| && SpanAt(b, i, edge).Some? && forall q :: edge <= q < i ==> Plain(b, q)
    ensures Shape(b, SpanAt(b, i, edge).value)
  {
    hide MatchSecret, EmailAt, PhoneAt, SecretShape, PhoneShape, EmailShape, Plain;
    var s := SpanAt(b, i, edge).value;
    if s.kind.Secret? {
      SecretExact(b, i, s.to - s.from);
    } else if EmailAt(b, i).Some? && EmailAt(b, i).value.0 <= i - edge {
      EmailExact(b, i, i - s.from, s.to - s.from);
    } else {
      PhoneExact(b, i, s.to - s.from);
    }
    assert ShapeAt(b, s, i);
  }

  /** Position `p` lies in one of the spans. */
  ghost predicate Covered(spans: seq<Span>, p: nat) {
    exists k :: 0 <= k < |spans| && spans[k].from <= p < spans[k].to
  }

  /** An email at `p` would reach back into what is already masked. */
  ghost predicate Blocked(spans: seq<Span>, edge: nat, p: nat, left: nat)
  {
    p - left < edge || exists k :: 0 <= k < |spans| && p - left < spans[k].to <= p
  }

  lemma {:induction false} SpansAreShapes(b: bytes, i: nat, edge: nat)
    requires edge <= i <= |b| && forall q :: edge <= q < i ==> Plain(b, q)
    ensures forall k :: 0 <= k < |SpansFrom(b, i, edge)| ==> Shape(b, SpansFrom(b, i, edge)[k])
    decreases |b| - i
  {
    hide SpanAt, Shape, Plain;
    if i < |b| {
      match SpanAt(b, i, edge) {
        case Some(span) =>
          SpanAtShape(b, i, edge);
          SpansAreShapes(b, span.to, span.to);
        case None =>
          NoShape(b, i, edge);
          PlainExact(b, i);
          SpansAreShapes(b, i + 1, edge);
      }
    }
  }

  /** A position the scan steps over begins no shape it could have redacted. */
  lemma NoShape(b: bytes, i: nat, edge: nat)
    requires edge <= i < |b| && SpanAt(b, i, edge).None?
    ensures MatchSecret(b, i).None? && PhoneAt(b, i).None?
    ensures EmailAt(b, i).Some? ==> i - EmailAt(b, i).value.0 < edge
  {
    hide MatchSecret, EmailAt, PhoneAt;
  }

  lemma {:induction false} SurvivorsFrom(b: bytes, i: nat, edge: nat, p: nat)
    requires edge <= i <= p < |b| && !Covered(SpansFrom(b, i, edge), p)
    ensures MatchSecret(b, p).None? && PhoneAt(b, p).None?
    ensures EmailAt(b, p).Some? ==> Blocked(SpansFrom(b, i, edge), edge, p, EmailAt(b, p).value.0)
    decreases |b| - i
  {
    hide SpanAt, MatchSecret, PhoneAt, EmailAt;
    var all := SpansFrom(b, i, edge);
    match SpanAt(b, i, edge) {
      case Some(span) =>
        var rest := SpansFrom(b, span.to, span.to);
        assert all[0] == span;
        assert p >= span.to;
        CoveredStill(span, rest, p);
        SurvivorsFrom(b, span.to, span.to, p);
        if EmailAt(b, p).Some? {
          BlockedStill(span, rest, edge, p, EmailAt(b, p).value.0);
        }
      case None =>
        if p == i {
          NoShape(b, i, edge);
        } else {
          SurvivorsFrom(b, i + 1, edge, p);
        }
    }
  }

  lemma CoveredStill(span: Span, rest: seq<Span>, p: nat)
    ensures Covered(rest, p) ==> Covered([span] + rest, p)
  {
    var all := [span] + rest;
    assert forall k :: 0 <= k < |rest| ==> rest[k] == all[k + 1];
  }

  lemma BlockedStill(span: Span, rest: seq<Span>, edge: nat, p: nat, left: nat)
    requires Blocked(rest, span.to, p, left) && span.to <= p
    ensures Blocked([span] + rest, edge, p, left)
  {
    var all := [span] + rest;
    if p - left < span.to {
      assert p - left < all[0].to <= p;
    } else {
      var k :| 0 <= k < |rest| && p - left < rest[k].to <= p;
      assert p - left < all[k + 1].to <= p;
    }
  }

  /** What a scan's spans must be: apart and in order, each a shape where it
      stands; a byte in none of them begins no secret and no phone number, and
      is the `@` of an address only when a span reaches into its local part. */
  ghost predicate Proper(b: bytes, spans: seq<Span>) {
    && Apart(spans, |b|)
    && (forall k :: 0 <= k < |spans| ==> Shape(b, spans[k]))
    && (forall p: nat :: p < |b| && !Covered(spans, p) ==> Free(b, spans, p))
  }

  ghost predicate Free(b: bytes, spans: seq<Span>, p: nat) {
    && Plain(b, p)
    && forall left: nat, total: nat :: EmailShape(b, p, left, total) ==> Blocked(spans, 0, p, left)
  }

  /** The whole scan: its spans are what they must be. */
  lemma ScanExact(b: bytes)
    ensures Proper(b, SpansOf(b))
  {
    hide SpansFrom, Shape, Covered, Blocked, MatchSecret, PhoneAt, EmailAt, Apart, Plain, EmailShape;
    SpansFromApart(b, 0, 0);
    SpansAreShapes(b, 0, 0);
    forall p: nat | p < |b| && !Covered(SpansOf(b), p) ensures Free(b, SpansOf(b), p) {
      SurvivorsFrom(b, 0, 0, p);
      PlainExact(b, p);
      forall left: nat, total: nat | EmailShape(b, p, left, total) ensures Blocked(SpansOf(b), 0, p, left) {
        EmailExact(b, p, left, total);
      }
    }
  }

  /** One shape at one place makes one span. */
  lemma OneSpan(b: bytes, s: Span, t: Span, at: nat)
    requires ShapeAt(b, s, at) && ShapeAt(b, t, at)
    ensures s == t
  {
    hide SecretShape, PhoneShape, EmailShape, Plain, MatchSecret, PhoneAt, EmailAt;
    Beginnings(b, at);
    forall x: Span | x in {s, t} && x.from <= at
      ensures at == x.from ==> (MatchSecret(b, at) == Some(x.to - x.from) <==> SecretShape(b, at, x.to - x.from))
                               && (PhoneAt(b, at) == Some(x.to - x.from) <==> PhoneShape(b, at, x.to - x.from))
      ensures EmailAt(b, at) == Some((at - x.from, x.to - x.from)) <==> EmailShape(b, at, at - x.from, x.to - x.from)
    {
      SecretExact(b, at, x.to - x.from);
      PhoneExact(b, at, x.to - x.from);
      EmailExact(b, at, at - x.from, x.to - x.from);
    }
  }

  /** What each shape begins with tells it from the others. */
  lemma Beginnings(b: bytes, at: nat)
    requires at < |b|
    ensures (exists n: nat :: SecretShape(b, at, n)) ==> b[at] in [0x2D, 0x73, 0x67, 0x41, 0x42, 0x62]
    ensures (exists n: nat :: PhoneShape(b, at, n)) ==> Digit(b[at]) || b[at] == PLUS
    ensures (exists left: nat, total: nat :: EmailShape(b, at, left, total)) ==> b[at] == AT
  {
    hide Reads, Token, Block, AccessKey;
    OneOpening(b, at);
  }

  /** Where a proper list's next span is found, another's is found no later. */
  lemma NotBefore(b: bytes, s: seq<Span>, t: seq<Span>, k: nat, at: nat) returns (sooner: nat)
    requires Proper(b, s) && Proper(b, t) && k <= |s| && k < |t| && s[..k] == t[..k] && ShapeAt(b, t[k], at)
    ensures k < |s| && sooner <= at && ShapeAt(b, s[k], sooner)
  {
    hide Proper, ShapeAt;
    sooner := 0;
    if k < |s| {
      sooner := ShapeOf(b, s, k);
    }
    NothingSooner(b, s, t, k, at, sooner);
  }

  lemma FoundAt(b: bytes, s: Span) returns (at: nat)
    requires Shape(b, s)
    ensures ShapeAt(b, s, at)
  {
    hide ShapeAt;
    var x: nat :| ShapeAt(b, s, x);
    at := x;
  }

  lemma ShapeOf(b: bytes, s: seq<Span>, k: nat) returns (at: nat)
    requires Proper(b, s) && k < |s|
    ensures ShapeAt(b, s[k], at)
  {
    hide Shape, Apart, Free, Covered;
    at := FoundAt(b, s[k]);
  }

  lemma NothingSooner(b: bytes, s: seq<Span>, t: seq<Span>, k: nat, at: nat, sooner: nat)
    requires Proper(b, s) && Proper(b, t) && k <= |s| && k < |t| && s[..k] == t[..k] && ShapeAt(b, t[k], at)
    requires k < |s| ==> ShapeAt(b, s[k], sooner)
    ensures k < |s| && sooner <= at
  {
    hide Plain, Apart, SecretShape, PhoneShape, EmailShape, Shape, Free, Blocked;
    var x := t[k];
    forall j | 0 <= j < |s| && j != k ensures if j < k then s[j].to <= x.from else s[k].to <= s[j].from < s[j].to {
      if j < k {
        assert s[j] == s[..k][j] == t[..k][j];
        Earlier(t, |b|, j, k);
      } else {
        Earlier(s, |b|, k, j);
        SpanLength(s, |b|, j);
      }
    }
    if k < |s| {
      NotInside(b, s[k], x, at, sooner);
    }
    if !Covered(s, at) {
      FreeOf(b, s, x, at);
    }
  }

  lemma SpanLength(s: seq<Span>, i: nat, j: nat)
    requires Apart(s, i) && j < |s|
    ensures s[j].from < s[j].to
  {
  }

  /** No shape is found inside a span before that span's own place. */
  lemma NotInside(b: bytes, s: Span, x: Span, at: nat, sooner: nat)
    requires ShapeAt(b, s, sooner) && ShapeAt(b, x, at)
    ensures at < s.from || sooner <= at
  {
    hide SecretShape, PhoneShape, EmailShape, Plain;
    if s.from <= at < sooner {
      PlainNot(b, at, x.to - x.from);
      LocalBefore(b, sooner, sooner - s.from, s.to - s.from, at);
      Beginnings(b, at);
    }
  }

  lemma FoundIn(b: bytes, s: Span, at: nat)
    requires ShapeAt(b, s, at)
    ensures s.from <= at < s.to <= |b|
  {
  }

  lemma PlainNot(b: bytes, q: nat, n: nat)
    requires Plain(b, q)
    ensures !SecretShape(b, q, n) && !PhoneShape(b, q, n)
  {
  }

  lemma LocalBefore(b: bytes, p: nat, left: nat, total: nat, q: nat)
    requires EmailShape(b, p, left, total) && left <= p && p - left <= q < p < |b|
    ensures b[q] != AT
  {
  }

  /** Where a shape is found, nothing is free that no span ends before it. */
  lemma FreeOf(b: bytes, s: seq<Span>, x: Span, at: nat)
    requires ShapeAt(b, x, at) && Free(b, s, at)
    ensures exists j :: 0 <= j < |s| && x.from < s[j].to <= at
  {
    hide SecretShape, PhoneShape, EmailShape, Plain;
    PlainNot(b, at, x.to - x.from);
    assert Blocked(s, 0, at, at - x.from);
  }

  /** And nothing else is: only the scan's own spans are proper. */
  lemma ScanUnique(b: bytes, s: seq<Span>, t: seq<Span>)
    requires Proper(b, s) && Proper(b, t)
    ensures s == t
  {
    hide Proper;
    SamePrefix(b, s, t, |s|);
    SamePrefix(b, t, s, |t|);
  }

  lemma {:induction false} SamePrefix(b: bytes, s: seq<Span>, t: seq<Span>, k: nat)
    requires Proper(b, s) && Proper(b, t) && k <= |s|
    ensures k <= |t| && s[..k] == t[..k]
  {
    hide Proper, Shape, ShapeAt;
    if k > 0 {
      SamePrefix(b, s, t, k - 1);
      var at := ShapeOf(b, s, k - 1);
      var sooner := NotBefore(b, t, s, k - 1, at);
      var again := NotBefore(b, s, t, k - 1, sooner);
      NotInside(b, s[k - 1], s[k - 1], again, at);
      FoundIn(b, s[k - 1], again);
      OneSpan(b, s[k - 1], t[k - 1], at);
      assert s[..k] == s[..k - 1] + [s[k - 1]] && t[..k] == t[..k - 1] + [t[k - 1]];
    }
  }

  // Bare runs of digits.

  const BARE_MAX := 11

  /** Digits up to `to`, where the input ends or goes on with neither a digit
      nor a separator. */
  ghost predicate DigitsTo(b: bytes, i: nat, to: nat)
  {
    && i <= to <= |b|
    && (forall k :: i <= k < to ==> Digit(b[k]))
    && (to < |b| ==> !PhoneChar(b[to]))
  }

  lemma {:induction false} RunEnds(b: bytes, i: nat, to: nat)
    requires DigitsTo(b, i, to)
    ensures RunEnd(b, i, |b|, PhoneChar) == to
    decreases |b| - i
  {
    if i < to {
      RunEnds(b, i + 1, to);
    }
  }

  lemma {:induction false} AllCounted(b: bytes, i: nat, to: nat)
    requires i <= to <= |b| && forall k :: i <= k < to ==> Digit(b[k])
    ensures CountDigits(b, i, to) == to - i
  {
    if i < to {
      AllCounted(b, i, to - 1);
    }
  }

  lemma PhoneInDigits(b: bytes, i: nat, to: nat)
    requires DigitsTo(b, i, to) && i < to
    ensures PhoneAt(b, i) == if 7 <= to - i <= BARE_MAX then Some(to - i) else None
  {
    hide RunEnd, RunStart, CountDigits;
    RunEnds(b, i, to);
    AllCounted(b, i, to);
    NothingTrimmed(b, i, to);
  }

  lemma NothingTrimmed(b: bytes, i: nat, to: nat)
    requires i < to <= |b| && Digit(b[to - 1])
    ensures RunStart(b, to, i, PhoneSep) == to
  {
  }

  /** Inside a bare run, a span begins exactly where 7 to 11 digits are left. */
  lemma SpanInDigits(b: bytes, i: nat, edge: nat, to: nat)
    requires DigitsTo(b, i, to) && edge <= i < to
    ensures SpanAt(b, i, edge) == if 7 <= to - i <= BARE_MAX then Some(Span(Pii, i, to)) else None
  {
    hide PhoneAt, MatchSecret, MatchEmail;
    PhoneInDigits(b, i, to);
    NoSecret(b, i);
  }

  lemma NoSecret(b: bytes, i: nat)
    requires i < |b| && Digit(b[i])
    ensures MatchSecret(b, i).None?
  {
    hide MatchToken, MatchAkia, MatchPem;
    forall prefix: bytes | StartsWith(b, i, prefix) && prefix != [] ensures Digit(prefix[0]) {
      assert b[i..i + |prefix|][0] == b[i];
    }
  }

  /** Where the scan of a bare run's last `to - i` digits first redacts. */
  function BareFrom(i: nat, to: nat): (from: nat)
    requires i <= to
    ensures i <= from <= to
  {
    if to - i > BARE_MAX then to - BARE_MAX else i
  }

  lemma {:induction false} ScanDigits(b: bytes, i: nat, edge: nat, to: nat)
    requires DigitsTo(b, i, to) && edge <= i
    ensures SpansFrom(b, i, edge) ==
              (if to - i < 7 then SpansFrom(b, to, edge) else [Span(Pii, BareFrom(i, to), to)] + SpansFrom(b, to, to))
    decreases |b| - i
  {
    hide SpanAt;
    if i < to {
      SpanInDigits(b, i, edge, to);
      if !(7 <= to - i <= BARE_MAX) {
        ScanDigits(b, i + 1, edge, to);
      }
    }
  }

  /** No span reaches across `p` from before it. */
  ghost predicate Clear(spans: seq<Span>, p: nat) {
    forall k :: 0 <= k < |spans| ==> !(spans[k].from < p < spans[k].to)
  }

  /** Where no span reaches across, the scan stands at some point. */
  lemma {:induction false} ScanStands(b: bytes, i: nat, edge: nat, p: nat) returns (past: seq<Span>, last: nat)
    requires edge <= i <= p <= |b| && Clear(SpansFrom(b, i, edge), p)
    ensures last <= p
    ensures SpansFrom(b, i, edge) == past + SpansFrom(b, p, last)
    ensures forall k :: 0 <= k < |past| ==> past[k].to <= p
    decreases |b| - i
  {
    hide SpanAt;
    if i == p {
      past, last := [], edge;
    } else {
      match SpanAt(b, i, edge) {
        case Some(span) =>
          var rest := SpansFrom(b, span.to, span.to);
          var all := [span] + rest;
          assert all[0] == span;
          assert Clear(rest, p) by { assert forall k :: 0 <= k < |rest| ==> rest[k] == all[k + 1]; }
          past, last := ScanStands(b, span.to, span.to, p);
          past := [span] + past;
        case None =>
          past, last := ScanStands(b, i + 1, edge, p);
      }
    }
  }

  /** A bare run of at least 7 digits that no span reaches into from before
      loses exactly its last 11 digits, or all of them when it has no more. */
  lemma BareRun(b: bytes, from: nat, to: nat, p: nat)
    requires DigitsTo(b, from, to) && to - from >= 7 && from <= p < to
    requires Clear(SpansOf(b), from)
    ensures Span(Pii, BareFrom(from, to), to) in SpansOf(b)
    ensures Covered(SpansOf(b), p) <==> p >= BareFrom(from, to)
  {
    hide SpansFrom, Clear;
    var past, last := ScanStands(b, 0, 0, from);
    ScanDigits(b, from, last, to);
    SpansFromApart(b, to, to);
    var run := Span(Pii, BareFrom(from, to), to);
    var rest := SpansFrom(b, to, to);
    assert SpansOf(b) == past + ([run] + rest);
    RestAfter(rest, to, |b|);
    CoveredByRun(past, run, rest, from, p);
  }

  lemma RestAfter(rest: seq<Span>, to: nat, n: nat)
    requires Apart(rest, n) && (rest != [] ==> rest[0].from >= to)
    ensures forall k :: 0 <= k < |rest| ==> rest[k].from >= to
  {
    forall k | 0 <= k < |rest| ensures rest[k].from >= to {
      if k > 0 {
        Earlier(rest, n, 0, k);
      }
    }
  }

  lemma CoveredByRun(past: seq<Span>, run: Span, rest: seq<Span>, from: nat, p: nat)
    requires forall k :: 0 <= k < |past| ==> past[k].to <= from
    requires forall k :: 0 <= k < |rest| ==> rest[k].from >= run.to
    requires from <= p < run.to
    ensures run in past + ([run] + rest)
    ensures Covered(past + ([run] + rest), p) <==> p >= run.from
  {
    var all := past + ([run] + rest);
    assert all[|past|] == run;
    forall k | 0 <= k < |all| && k != |past| ensures !(all[k].from <= p < all[k].to) {
      assert k < |past| ==> all[k] == past[k];
      assert k > |past| ==> all[k] == rest[k - |past| - 1];
    }
  }

  /** Text that is all digits: nothing below 7, and otherwise its last 11. */
  lemma AllDigits(b: bytes)
    requires forall k :: 0 <= k < |b| ==> Digit(b[k])
    ensures SpansOf(b) == (if |b| < 7 then [] else [Span(Pii, BareFrom(0, |b|), |b|)])
  {
    ScanDigits(b, 0, 0, |b|);
  }

  // The text.

  lemma ApartLater(spans: seq<Span>, i: nat, j: nat)
    requires Apart(spans, i) && i <= j
    ensures Apart(spans, j)
  {
  }

  lemma ApartEdge(spans: seq<Span>, i: nat, j: nat)
    requires Apart(spans, i) && Edge(spans) <= j
    ensures Apart(spans, j)
  {
    forall k | 0 <= k < |spans| ensures spans[k].to <= j {
      if k < |spans| - 1 {
        Earlier(spans, i, k, |spans| - 1);
      }
    }
  }

  lemma ApartSnoc(spans: seq<Span>, s: Span, i: nat)
    requires Apart(spans, s.from) && s.from + MIN_SPAN <= s.to <= i
    ensures Apart(spans + [s], i)
  {
  }

  lemma LaidSnoc(b: bytes, spans: seq<Span>, s: Span, i: nat, masked: bool)
    requires Apart(spans, s.from) && s.from + MIN_SPAN <= s.to <= i <= |b|
    ensures Apart(spans + [s], i)
    ensures Laid(b, spans + [s], i, masked) ==
              Laid(b, spans, s.from, masked) + (if masked then Marker(s.kind, |spans| + 1) else b[s.from..s.to]) + b[s.to..i]
  {
    hide Apart, Marker;
    ApartSnoc(spans, s, i);
    assert (spans + [s])[..|spans|] == spans;
  }

  /** Past the last span, the text is the input itself. */
  lemma LaidTail(b: bytes, spans: seq<Span>, i: nat, masked: bool)
    requires Apart(spans, i) && i <= |b|
    ensures Edge(spans) <= i && Apart(spans, Edge(spans))
    ensures Laid(b, spans, i, masked) == Laid(b, spans, Edge(spans), masked) + b[Edge(spans)..i]
  {
    hide Marker;
    ApartEdge(spans, i, Edge(spans));
    if spans != [] {
      ApartInit(spans, i);
      var s := spans[|spans| - 1];
      assert b[s.to..s.to] == [];
    }
  }

  lemma LaidCopy(b: bytes, spans: seq<Span>, i: nat)
    requires Apart(spans, i) && i < |b|
    ensures Apart(spans, i + 1)
    ensures Laid(b, spans, i + 1, true) == Laid(b, spans, i, true) + [b[i]]
  {
    hide Laid, Apart;
    ApartLater(spans, i, i + 1);
    LaidTail(b, spans, i, true);
    LaidTail(b, spans, i + 1, true);
    assert b[Edge(spans)..i + 1] == b[Edge(spans)..i] + [b[i]];
  }

  lemma LaidRewind(b: bytes, spans: seq<Span>, i: nat, left: nat)
    requires Apart(spans, i) && i <= |b| && left <= i - Edge(spans)
    ensures Apart(spans, i - left)
    ensures |Laid(b, spans, i, true)| >= left
    ensures Laid(b, spans, i, true)[..|Laid(b, spans, i, true)| - left] == Laid(b, spans, i - left, true)
    ensures Laid(b, spans, i, true)[|Laid(b, spans, i, true)| - left..] == b[i - left..i]
  {
    hide Laid, Apart;
    ApartEdge(spans, i, i - left);
    LaidTail(b, spans, i, true);
    LaidTail(b, spans, i - left, true);
    assert b[Edge(spans)..i] == b[Edge(spans)..i - left] + b[i - left..i];
  }

  /** Putting the redacted bytes back where their markers stand gives the input:
      every byte survives once, in order, or lies in exactly one span. */
  lemma {:induction false} Partition(b: bytes, spans: seq<Span>, i: nat)
    requires Apart(spans, i) && i <= |b|
    ensures Laid(b, spans, i, false) == b[..i]
  {
    hide Apart, Marker;
    if spans != [] {
      ApartInit(spans, i);
      var n := |spans| - 1;
      var s := spans[n];
      Partition(b, spans[..n], s.from);
      assert b[..i] == b[..s.from] + b[s.from..s.to] + b[s.to..i];
    }
  }

  /** The masked text of a whole input. */
  ghost function Masked(b: bytes): bytes {
    SpansFromApart(b, 0, 0);
    Laid(b, SpansOf(b), |b|, true)
  }

  /** Masking partitions every input, and fits the bound. */
  lemma MaskPartitions(b: bytes)
    ensures Apart(SpansOf(b), |b|) && Laid(b, SpansOf(b), |b|, false) == b
    ensures |Masked(b)| <= Bound(|b|)
  {
    hide Laid, Apart, SpansFrom;
    SpansFromApart(b, 0, 0);
    Partition(b, SpansOf(b), |b|);
    RoomEnough(b, SpansOf(b), |b|);
    assert b[..|b|] == b;
  }

  // Room.

  lemma MarkerFits(c: Class, n: nat)
    ensures MIN_SPAN < |Marker(c, n)| <= MAX_MARKER
    ensures Marker(c, n)[|Marker(c, n)| - 1] == CLOSE
  {
    hide Decimal;
    TenDigits();
    DecimalDigits(Min(n, LAST_SPAN), 10, Ten(10));
  }

  /** Each marker takes at most 22 bytes more than the 6 or more it replaces. */
  lemma {:induction false} RoomUsed(b: bytes, spans: seq<Span>, i: nat)
    requires Apart(spans, i) && i <= |b|
    ensures |Laid(b, spans, i, true)| <= i + (MAX_MARKER - MIN_SPAN) * |spans|
    ensures MIN_SPAN * |spans| <= i
  {
    hide Apart, Marker;
    if spans != [] {
      ApartInit(spans, i);
      var n := |spans| - 1;
      var s := spans[n];
      RoomUsed(b, spans[..n], s.from);
      MarkerFits(s.kind, n + 1);
      assert s.from + MIN_SPAN <= s.to by { LastLength(spans, i); }
    }
  }

  lemma LastLength(spans: seq<Span>, i: nat)
    requires Apart(spans, i) && spans != []
    ensures spans[|spans| - 1].from + MIN_SPAN <= spans[|spans| - 1].to
  {
  }

  /** So the text so far always fits the bound of the whole input. */
  lemma RoomEnough(b: bytes, spans: seq<Span>, i: nat)
    requires Apart(spans, i) && i <= |b|
    ensures |Laid(b, spans, i, true)| <= Bound(|b|)
  {
    hide Laid, Apart;
    RoomUsed(b, spans, i);
  }

  /** Markers end in a byte no local part has, so a text ending in an email's
      local part ends in bytes copied since the last marker, and only then. */
  lemma TailIsLiteral(b: bytes, spans: seq<Span>, i: nat, left: nat)
    requires Apart(spans, i) && 1 <= left <= i <= |b| && forall k :: i - left <= k < i ==> LocalChar(b[k])
    ensures var out := Laid(b, spans, i, true);
            (left <= |out| && out[|out| - left..] == b[i - left..i]) <==> left <= i - Edge(spans)
  {
    hide Laid, Apart, Marker;
    var out := Laid(b, spans, i, true);
    if left <= i - Edge(spans) {
      LaidRewind(b, spans, i, left);
    } else if left <= |out| {
      LaidTail(b, spans, i, true);
      var copied := i - Edge(spans);
      var q := |out| - copied - 1;
      EndsClosed(b, spans, i);
      assert out[q] == CLOSE;
      assert out[|out| - left..][q - (|out| - left)] == CLOSE;
      assert b[i - left..i][q - (|out| - left)] == b[i - copied - 1];
    }
  }

  lemma EndsClosed(b: bytes, spans: seq<Span>, i: nat)
    requires Apart(spans, i) && i <= |b|
    ensures Apart(spans, Edge(spans))
    ensures var t := Laid(b, spans, Edge(spans), true); Edge(spans) > 0 ==> t != [] && t[|t| - 1] == CLOSE
  {
    hide Marker, Apart;
    LaidTail(b, spans, i, true);
    if spans != [] {
      ApartInit(spans, i);
      ApartInit(spans, Edge(spans));
      var s := spans[|spans| - 1];
      var m := Marker(s.kind, |spans|);
      MarkerFits(s.kind, |spans|);
      assert Laid(b, spans, s.to, true) == Laid(b, spans[..|spans| - 1], s.from, true) + m;
    }
  }
}
