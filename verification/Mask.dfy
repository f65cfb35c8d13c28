/** Masking of secrets and personal data: the shapes, the spans redacted, and
    the masked text, as functions of the input. */
module Mask {
  import opened Words

  const MAX_MARKER := 28
  const MIN_SPAN := 6

  predicate AsciiText(s: string) {
    forall k :: 0 <= k < |s| ==> s[k] as int < 0x80
  }

  function Ascii(s: string): (b: bytes)
    requires AsciiText(s)
    ensures |b| == |s|
  {
    seq(|s|, k requires 0 <= k < |s| => s[k] as int)
  }

  // Byte classes.

  predicate Alnum(x: u8) {
    Digit(x) || 0x41 <= x <= 0x5A || 0x61 <= x <= 0x7A
  }

  /** Letters, digits and `.` `_` `~` `+` `/` `-` `=`. */
  predicate TokenChar(x: u8) {
    Alnum(x) || x in [0x2E, 0x5F, 0x7E, 0x2B, 0x2F, 0x2D, 0x3D]
  }

  /** Letters, digits and `.` `_` `%` `+` `-`. */
  predicate LocalChar(x: u8) {
    Alnum(x) || x in [0x2E, 0x5F, 0x25, 0x2B, 0x2D]
  }

  predicate DomainChar(x: u8) {
    Alnum(x) || x == DOT || x == 0x2D
  }

  /** Space `-` `.` `(` `)`. */
  predicate PhoneSep(x: u8) {
    x in [0x20, 0x2D, 0x2E, 0x28, 0x29]
  }

  const DOT: u8 := 0x2E
  const AT: u8 := 0x40
  const PLUS: u8 := 0x2B
  const NEWLINE: u8 := 0x0A
  const CLOSE: u8 := 0x5D

  predicate StartsWith(b: bytes, at: nat, prefix: bytes) {
    at + |prefix| <= |b| && b[at..at + |prefix|] == prefix
  }

  /** Where the run of bytes in `class` from `k` ends, looking no further than
      `limit`. */
  function RunEnd(b: bytes, k: nat, limit: nat, member: u8 -> bool): (r: nat)
    requires k <= limit <= |b|
    ensures k <= r <= limit && (forall j :: k <= j < r ==> member(b[j])) && (r < limit ==> !member(b[r]))
    decreases limit - k
  {
    if k < limit && member(b[k]) then RunEnd(b, k + 1, limit, member) else k
  }

  /** Where the run of bytes in `class` that ends at `k` starts, no lower than
      `floor`. */
  function RunStart(b: bytes, k: nat, floor: nat, member: u8 -> bool): (r: nat)
    requires floor <= k <= |b|
    ensures floor <= r <= k && (forall j :: r <= j < k ==> member(b[j])) && (r > floor ==> !member(b[r - 1]))
  {
    if k > floor && member(b[k - 1]) then RunStart(b, k - 1, floor, member) else k
  }

  function CountDigits(b: bytes, from: nat, to: nat): (n: nat)
    requires from <= to <= |b|
    ensures n <= to - from
  {
    if from == to then 0 else CountDigits(b, from, to - 1) + if Digit(b[to - 1]) then 1 else 0
  }

  // Secret shapes: how many bytes from `at` one takes.

  const TOKEN_TAIL := 128

  /** A prefix of `anchor` bytes and 16 to 128 token characters. */
  function MatchToken(b: bytes, at: nat, anchor: nat): (r: Option<nat>)
    requires at + anchor <= |b|
    ensures r.Some? ==> anchor + 16 <= r.value <= |b| - at
  {
    var end := RunEnd(b, at + anchor, Min(|b|, at + anchor + TOKEN_TAIL), TokenChar);
    if end - (at + anchor) >= 16 then Some(end - at) else None
  }

  function MatchAkia(b: bytes, at: nat): (r: Option<nat>)
    requires at <= |b|
    ensures r.Some? ==> r.value == 20 <= |b| - at
  {
    if at + 20 <= |b| && (forall k :: at + 4 <= k < at + 20 ==> Alnum(b[k])) then Some(20) else None
  }

  const PEM_OPEN := "-----BEGIN "
  const PEM_CLOSE := "-----END "
  const PEM_WINDOW := 2048

  /** The first closing line at or after `k` that starts inside the window. */
  function FindClose(b: bytes, k: nat, window: nat): (r: Option<nat>)
    requires window <= |b|
    ensures r.Some? ==> k <= r.value && r.value + |PEM_CLOSE| <= window && StartsWith(b, r.value, Ascii(PEM_CLOSE))
    decreases window - k
  {
    if k + |PEM_CLOSE| > window then None
    else if StartsWith(b, k, Ascii(PEM_CLOSE)) then Some(k)
    else FindClose(b, k + 1, window)
  }

  predicate NotNewline(x: u8) {
    x != NEWLINE
  }

  /** Through the end of the closing line, newline included. */
  function MatchPem(b: bytes, at: nat): (r: Option<nat>)
    requires at + |PEM_OPEN| <= |b|
    ensures r.Some? ==> |PEM_OPEN| + |PEM_CLOSE| <= r.value <= |b| - at
  {
    match FindClose(b, at + |PEM_OPEN|, Min(|b|, at + PEM_WINDOW))
    case None => None
    case Some(k) =>
      var end := RunEnd(b, k + |PEM_CLOSE|, |b|, NotNewline);
      Some((if end < |b| then end + 1 else end) - at)
  }

  function MatchSecret(b: bytes, at: nat): (r: Option<nat>)
    requires at <= |b|
    ensures r.Some? ==> MIN_SPAN <= r.value <= |b| - at
  {
    if StartsWith(b, at, Ascii(PEM_OPEN)) then MatchPem(b, at)
    else if StartsWith(b, at, Ascii("sk_live_")) then MatchToken(b, at, 8)
    else if StartsWith(b, at, Ascii("sk_test_")) then MatchToken(b, at, 8)
    else if StartsWith(b, at, Ascii("github_pat_")) then MatchToken(b, at, 11)
    else if StartsWith(b, at, Ascii("sk-")) then MatchToken(b, at, 3)
    else if StartsWith(b, at, Ascii("AKIA")) then MatchAkia(b, at)
    else if StartsWith(b, at, Ascii("Bearer ")) || StartsWith(b, at, Ascii("bearer ")) then MatchToken(b, at, 7)
    else None
  }

  // Personal data.

  predicate IsDot(x: u8) {
    x == DOT
  }

  /** An email around the `@` at `at`: its local part's length, its length. */
  function MatchEmail(b: bytes, at: nat): (r: Option<(nat, nat)>)
    requires at < |b|
    ensures r.Some? ==> 1 <= r.value.0 <= at && r.value.0 + 5 <= r.value.1 <= |b| - at + r.value.0
    ensures r.Some? ==> forall k :: at - r.value.0 <= k < at ==> LocalChar(b[k])
  {
    var start := RunStart(b, at, 0, LocalChar);
    var end := RunStart(b, RunEnd(b, at + 1, |b|, DomainChar), at + 1, IsDot);
    if start == at || end - (at + 1) < 4 || DOT !in b[at + 1..end] then None
    else Some((at - start, end - start))
  }

  /** A digit run: an optional `+`, then digits and separators, 7 to 15 digits,
      at most 11 when nothing separates them. */
  function MatchPhone(b: bytes, at: nat): (r: Option<nat>)
    requires at < |b|
    ensures r.Some? ==> MIN_SPAN <= r.value <= |b| - at
  {
    var plus := if b[at] == PLUS then 1 else 0;
    if plus == 1 && (at + 1 >= |b| || !Digit(b[at + 1])) then None
    else
      var run := RunEnd(b, at + plus, |b|, PhoneChar);
      var end := RunStart(b, run, at, PhoneSep);
      var digits := CountDigits(b, at + plus, run);
      DigitsKept(b, at, plus, run, end);
      if !(7 <= digits <= 15) then None
      else if end - at <= digits + plus && digits > 11 then None
      else Some(end - at)
  }

  predicate PhoneChar(x: u8) {
    Digit(x) || PhoneSep(x)
  }

  /** Trimming separators off the end leaves every digit in. */
  lemma {:induction false} DigitsKept(b: bytes, at: nat, plus: nat, run: nat, end: nat)
    requires at + plus <= run <= |b| && at <= end <= run && forall j :: end <= j < run ==> PhoneSep(b[j])
    ensures CountDigits(b, at + plus, run) <= end - at
  {
    if run > end && run > at + plus {
      DigitsKept(b, at, plus, run - 1, end);
    }
  }

  // The spans redacted.

  datatype Class = Secret | Pii

  datatype Span = Span(kind: Class, from: nat, to: nat)

  function Edge(spans: seq<Span>): nat {
    if spans == [] then 0 else spans[|spans| - 1].to
  }

  /** A phone shape is looked for where a `+` or a digit starts one. */
  function PhoneAt(b: bytes, i: nat): (r: Option<nat>)
    requires i < |b|
    ensures r.Some? ==> MIN_SPAN <= r.value <= |b| - i
  {
    if b[i] == PLUS || Digit(b[i]) then MatchPhone(b, i) else None
  }

  function EmailAt(b: bytes, i: nat): (r: Option<(nat, nat)>)
    requires i < |b|
    ensures r.Some? ==> 1 <= r.value.0 <= i && r.value.0 + 5 <= r.value.1 <= |b| - i + r.value.0
    ensures r.Some? ==> forall k :: i - r.value.0 <= k < i ==> LocalChar(b[k])
  {
    if b[i] == AT then MatchEmail(b, i) else None
  }

  /** The span the scan makes at `i`, when the last one ended at `edge`: a
      secret first, then an email whose local part is all still unmasked, then
      a phone. */
  function SpanAt(b: bytes, i: nat, edge: nat): (r: Option<Span>)
    requires edge <= i < |b|
    ensures r.Some? ==> edge <= r.value.from <= i < r.value.to <= |b| && r.value.to - r.value.from >= MIN_SPAN
  {
    match MatchSecret(b, i)
    case Some(n) => Some(Span(Secret, i, i + n))
    case None =>
      match EmailAt(b, i)
      case Some((left, total)) =>
        if left <= i - edge then Some(Span(Pii, i - left, i - left + total)) else PhoneSpan(b, i)
      case None => PhoneSpan(b, i)
  }

  function PhoneSpan(b: bytes, i: nat): (r: Option<Span>)
    requires i < |b|
    ensures r.Some? ==> i == r.value.from && r.value.to <= |b| && r.value.to - r.value.from >= MIN_SPAN
  {
    match PhoneAt(b, i)
    case Some(n) => Some(Span(Pii, i, i + n))
    case None => None
  }

  function SpansFrom(b: bytes, i: nat, edge: nat): seq<Span>
    requires edge <= i <= |b|
    decreases |b| - i
  {
    if i == |b| then []
    else
      match SpanAt(b, i, edge)
      case Some(span) => [span] + SpansFrom(b, span.to, span.to)
      case None => SpansFrom(b, i + 1, edge)
  }

  function SpansOf(b: bytes): seq<Span> {
    SpansFrom(b, 0, 0)
  }

  // The masked text.

  const LAST_SPAN: u32 := 0xFFFF_FFFF

  function Tag(c: Class): bytes {
    match c
    case Secret => Ascii("[redacted:secret#")
    case Pii => Ascii("[redacted:pii#")
  }

  function Marker(c: Class, n: nat): bytes {
    Tag(c) + Decimal(Min(n, LAST_SPAN)) + [CLOSE]
  }

  /** In order, apart, each long enough, and none past `i`. */
  ghost predicate Apart(spans: seq<Span>, i: nat)
  {
    && (forall k :: 0 <= k < |spans| ==> spans[k].from + MIN_SPAN <= spans[k].to <= i)
    && (forall k :: 0 < k < |spans| ==> spans[k - 1].to <= spans[k].from)
  }

  lemma ApartInit(spans: seq<Span>, i: nat)
    requires Apart(spans, i) && spans != []
    ensures Apart(spans[..|spans| - 1], spans[|spans| - 1].from) && spans[|spans| - 1].from <= spans[|spans| - 1].to <= i
  {
    var n := |spans| - 1;
    forall k | 0 <= k < n ensures spans[k].to <= spans[n].from {
      Earlier(spans, i, k, n);
    }
  }

  lemma {:induction false} Earlier(spans: seq<Span>, i: nat, j: nat, k: nat)
    requires Apart(spans, i) && j < k < |spans|
    ensures spans[j].to <= spans[k].from
    decreases k
  {
    if j < k - 1 {
      Earlier(spans, i, j, k - 1);
    }
  }

  /** The first `i` bytes with each span replaced: by its marker, or by itself. */
  ghost function Laid(b: bytes, spans: seq<Span>, i: nat, masked: bool): bytes
    requires i <= |b| && Apart(spans, i)
  {
    if spans == [] then b[..i]
    else
      ApartInit(spans, i);
      var n := |spans| - 1;
      var last := spans[n];
      Laid(b, spans[..n], last.from, masked) + (if masked then Marker(last.kind, n + 1) else b[last.from..last.to]) + b[last.to..i]
  }

  /** The bytes of the secret spans, in order. */
  function SecretBytes(b: bytes, spans: seq<Span>): bytes
    requires forall k :: 0 <= k < |spans| ==> spans[k].from <= spans[k].to <= |b|
  {
    if spans == [] then []
    else
      var n := |spans| - 1;
      SecretBytes(b, spans[..n]) + if spans[n].kind.Secret? then b[spans[n].from..spans[n].to] else []
  }

  predicate AnySecret(spans: seq<Span>) {
    exists k :: 0 <= k < |spans| && spans[k].kind.Secret?
  }

  function Bound(n: nat): nat {
    n + (MAX_MARKER - MIN_SPAN) * (n / MIN_SPAN)
  }
}
