/** The masking scan as it runs: matchers as loops, the output written in place
    and rewound over an email's local part. */
module MaskDevice {
  import opened Words
  import opened Core
  import opened Mask
  import opened MaskProofs

  // Matchers.

  method TokenAt(b: bytes, at: nat, anchor: nat) returns (r: Option<nat>)
    requires at + anchor <= |b|
    ensures r == MatchToken(b, at, anchor)
  {
    var len := anchor;
    ghost var limit := Min(|b|, at + anchor + TOKEN_TAIL);
    while at + len < |b| && len - anchor < TOKEN_TAIL
      invariant anchor <= len && at + len <= limit
      invariant RunEnd(b, at + anchor, limit, TokenChar) == RunEnd(b, at + len, limit, TokenChar)
    {
      if !TokenChar(b[at + len]) {
        break;
      }
      len := len + 1;
    }
    return if len - anchor >= 16 then Some(len) else None;
  }

  method AkiaAt(b: bytes, at: nat) returns (r: Option<nat>)
    requires at <= |b|
    ensures r == MatchAkia(b, at)
  {
    if at + 20 > |b| {
      return None;
    }
    for k := at + 4 to at + 20
      invariant forall j :: at + 4 <= j < k ==> Alnum(b[j])
    {
      if !Alnum(b[k]) {
        return None;
      }
    }
    return Some(20);
  }

  method PemAt(b: bytes, at: nat) returns (r: Option<nat>)
    requires at + |PEM_OPEN| <= |b|
    ensures r == MatchPem(b, at)
  {
    hide StartsWith, NotNewline;
    var window := Min(|b|, at + PEM_WINDOW);
    var i := at + |PEM_OPEN|;
    while i + |PEM_CLOSE| <= window
      invariant FindClose(b, at + |PEM_OPEN|, window) == FindClose(b, i, window)
      decreases window - i
    {
      if StartsWith(b, i, Ascii(PEM_CLOSE)) {
        var end := LineEnd(b, i + |PEM_CLOSE|);
        return Some((if end < |b| then end + 1 else end) - at);
      }
      i := i + 1;
    }
    return None;
  }

  method LineEnd(b: bytes, k: nat) returns (end: nat)
    requires k <= |b|
    ensures end == RunEnd(b, k, |b|, NotNewline)
  {
    end := k;
    while end < |b| && b[end] != NEWLINE
      invariant k <= end <= |b| && RunEnd(b, k, |b|, NotNewline) == RunEnd(b, end, |b|, NotNewline)
    {
      end := end + 1;
    }
  }

  method SecretAt(b: bytes, at: nat) returns (r: Option<nat>)
    requires at <= |b|
    ensures r == MatchSecret(b, at)
  {
    hide MatchPem, MatchToken, MatchAkia;
    if StartsWith(b, at, Ascii(PEM_OPEN)) {
      r := PemAt(b, at);
    } else if StartsWith(b, at, Ascii("sk_live_")) {
      r := TokenAt(b, at, 8);
    } else if StartsWith(b, at, Ascii("sk_test_")) {
      r := TokenAt(b, at, 8);
    } else if StartsWith(b, at, Ascii("github_pat_")) {
      r := TokenAt(b, at, 11);
    } else if StartsWith(b, at, Ascii("sk-")) {
      r := TokenAt(b, at, 3);
    } else if StartsWith(b, at, Ascii("AKIA")) {
      r := AkiaAt(b, at);
    } else if StartsWith(b, at, Ascii("Bearer ")) || StartsWith(b, at, Ascii("bearer ")) {
      r := TokenAt(b, at, 7);
    } else {
      r := None;
    }
  }

  method FindEmail(b: bytes, at: nat) returns (r: Option<(nat, nat)>)
    requires at < |b|
    ensures r == MatchEmail(b, at)
  {
    hide LocalChar, DomainChar, IsDot, RunStart, RunEnd;
    var start := LocalStart(b, at);
    if start == at {
      return None;
    }
    var end := DomainEnd(b, at + 1);
    if end - (at + 1) < 4 || DOT !in b[at + 1..end] {
      return None;
    }
    return Some((at - start, end - start));
  }

  method LocalStart(b: bytes, at: nat) returns (start: nat)
    requires at <= |b|
    ensures start == RunStart(b, at, 0, LocalChar)
  {
    hide LocalChar;
    start := at;
    while start > 0 && LocalChar(b[start - 1])
      invariant start <= at && RunStart(b, at, 0, LocalChar) == RunStart(b, start, 0, LocalChar)
    {
      start := start - 1;
    }
  }

  /** Where the domain from `k` ends, trailing dots left out. */
  method DomainEnd(b: bytes, k: nat) returns (end: nat)
    requires k <= |b|
    ensures end == RunStart(b, RunEnd(b, k, |b|, DomainChar), k, IsDot)
  {
    hide DomainChar;
    end := k;
    while end < |b| && DomainChar(b[end])
      invariant k <= end <= |b| && RunEnd(b, k, |b|, DomainChar) == RunEnd(b, end, |b|, DomainChar)
    {
      end := end + 1;
    }
    ghost var run := end;
    while end > k && b[end - 1] == DOT
      invariant k <= end <= run && RunStart(b, run, k, IsDot) == RunStart(b, end, k, IsDot)
    {
      end := end - 1;
    }
  }

  method FindPhone(b: bytes, at: nat) returns (r: Option<nat>)
    requires at < |b|
    ensures r == MatchPhone(b, at)
  {
    hide Digit, PhoneSep, PhoneChar, RunStart, RunEnd, CountDigits;
    var plus := if b[at] == PLUS then 1 else 0;
    if plus == 1 && (at + 1 >= |b| || !Digit(b[at + 1])) {
      return None;
    }
    var run, digits := PhoneRun(b, at + plus);
    var i := PhoneTrim(b, run, at);
    if !(7 <= digits <= 15) {
      return None;
    }
    if i - at <= digits + plus && digits > 11 {
      return None;
    }
    return Some(i - at);
  }

  method PhoneTrim(b: bytes, run: nat, at: nat) returns (end: nat)
    requires at <= run <= |b|
    ensures end == RunStart(b, run, at, PhoneSep)
  {
    hide PhoneSep;
    end := run;
    while end > at && PhoneSep(b[end - 1])
      invariant at <= end <= run && RunStart(b, run, at, PhoneSep) == RunStart(b, end, at, PhoneSep)
    {
      end := end - 1;
    }
  }

  /** Where the digits and separators from `k` end, and how many digits. */
  method PhoneRun(b: bytes, k: nat) returns (end: nat, digits: nat)
    requires k <= |b|
    ensures end == RunEnd(b, k, |b|, PhoneChar) && digits == CountDigits(b, k, end)
  {
    hide Digit, PhoneSep;
    end, digits := k, 0;
    while end < |b|
      invariant k <= end <= |b| && RunEnd(b, k, |b|, PhoneChar) == RunEnd(b, end, |b|, PhoneChar)
      invariant digits == CountDigits(b, k, end)
    {
      if Digit(b[end]) {
        digits := digits + 1;
      } else if !PhoneSep(b[end]) {
        break;
      }
      end := end + 1;
    }
  }

  // Output.

  method PutByte(output: array<u8>, out: nat, x: u8) returns (r: Result<nat, Error>)
    requires out <= output.Length
    modifies output
    ensures r == if out < output.Length then Ok(out + 1) else Err(MaskOutputTooSmall)
    ensures output[..out] == old(output[..out])
    ensures r.Ok? ==> output[..out + 1] == old(output[..out]) + [x]
  {
    if out >= output.Length {
      return Err(MaskOutputTooSmall);
    }
    output[out] := x;
    return Ok(out + 1);
  }

  method PutBytes(output: array<u8>, out: nat, b: bytes) returns (r: Result<nat, Error>)
    requires out <= output.Length
    modifies output
    ensures r == if out + |b| <= output.Length then Ok(out + |b|) else Err(MaskOutputTooSmall)
    ensures r.Ok? ==> output[..out + |b|] == old(output[..out]) + b
  {
    var at := out;
    for k := 0 to |b|
      invariant at == out + k <= output.Length
      invariant output[..at] == old(output[..out]) + b[..k]
    {
      at :- PutByte(output, at, b[k]);
      assert b[..k + 1] == b[..k] + [b[k]];
    }
    assert b[..|b|] == b;
    return Ok(at);
  }

  /** `n` in decimal: the digits low first, then put high first. */
  method PutDecimal(output: array<u8>, out: nat, n: u32) returns (r: Result<nat, Error>)
    requires out <= output.Length
    modifies output
    ensures r == if out + |Decimal(n)| <= output.Length then Ok(out + |Decimal(n)|) else Err(MaskOutputTooSmall)
    ensures r.Ok? ==> output[..out + |Decimal(n)|] == old(output[..out]) + Decimal(n)
  {
    hide Decimal;
    var digits := Digits(n);
    var at := out;
    var len := |digits|;
    assert digits[..len] == digits;
    while len > 0
      invariant 0 <= len <= |digits| && at == out + (|digits| - len) <= output.Length
      invariant output[..at] + Reversed(digits[..len]) == old(output[..out]) + Decimal(n)
    {
      ReversedStep(digits, len);
      len := len - 1;
      at :- PutByte(output, at, digits[len]);
    }
    assert Reversed(digits[..0]) == [] by { ReversedNone(digits); }
    return Ok(at);
  }

  function Reversed(s: bytes): (r: bytes)
    ensures |r| == |s|
  {
    if s == [] then [] else [s[|s| - 1]] + Reversed(s[..|s| - 1])
  }

  lemma ReversedNone(s: bytes)
    ensures Reversed(s[..0]) == []
  {
  }

  lemma ReversedStep(s: bytes, len: nat)
    requires 0 < len <= |s|
    ensures Reversed(s[..len]) == [s[len - 1]] + Reversed(s[..len - 1])
  {
    assert s[..len][..len - 1] == s[..len - 1];
  }

  /** The decimal digits of `n`, low first; just `0` for zero. */
  method Digits(n: u32) returns (digits: bytes)
    ensures Reversed(digits) == Decimal(n) && |digits| == |Decimal(n)|
  {
    if n == 0 {
      assert [0x30][..0] == [];
      return [0x30];
    }
    digits := [];
    var left := n;
    while left > 0
      invariant 0 <= left <= n && (if left == 0 then Decimal(n) == Reversed(digits) else Decimal(n) == Decimal(left) + Reversed(digits))
    {
      assert left >= 10 ==> Decimal(left) == Decimal(left / 10) + [0x30 + left % 10];
      ReversedSnoc(digits, 0x30 + left % 10);
      digits := digits + [0x30 + left % 10];
      left := left / 10;
    }
  }

  lemma ReversedSnoc(s: bytes, x: u8)
    ensures Reversed(s + [x]) == [x] + Reversed(s)
  {
    assert (s + [x])[..|s|] == s;
  }

  method EmitMarker(output: array<u8>, out: nat, c: Class, n: u32) returns (r: Result<nat, Error>)
    requires out <= output.Length
    modifies output
    ensures r == if out + |Marker(c, n)| <= output.Length then Ok(out + |Marker(c, n)|) else Err(MaskOutputTooSmall)
    ensures r.Ok? ==> output[..out + |Marker(c, n)|] == old(output[..out]) + Marker(c, n)
  {
    hide Tag, Decimal;
    ghost var w := output[..out];
    var at :- PutBytes(output, out, Tag(c));
    at :- PutDecimal(output, at, n);
    r := PutByte(output, at, CLOSE);
    assert (w + Tag(c)) + Decimal(n) + [CLOSE] == w + Marker(c, n);
  }

  // The scan.

  datatype Report = Report(redacted: u32, secretDigest: u64, len: nat)

  /** The bound, saturating at the widest length. */
  function MaskBound(n: nat, top: nat): nat {
    Min(n + Min((MAX_MARKER - MIN_SPAN) * (n / MIN_SPAN), top), top)
  }

  /** Everything the scan has settled about the first `i` bytes. */
  ghost predicate Scanned(b: bytes, done: seq<Span>, i: nat) {
    i <= |b| && Apart(done, i) && Edge(done) <= i && done + SpansFrom(b, i, Edge(done)) == SpansOf(b)
  }

  ghost predicate Tallied(step: step64, b: bytes, done: seq<Span>, redacted: u32, digest: u64, secretSeen: bool) {
    && (forall k :: 0 <= k < |done| ==> done[k].from <= done[k].to <= |b|)
    && redacted == Min(|done|, LAST_SPAN)
    && digest == Fold<u64>(step, FNV64_OFFSET, SecretBytes(b, done))
    && secretSeen == AnySecret(done)
  }

  /** The digest reported: of the secret bytes in order, or 0 without any. */
  ghost function SecretDigest(step: step64, b: bytes, spans: seq<Span>): u64
    requires Apart(spans, |b|)
  {
    if AnySecret(spans) then Fold<u64>(step, FNV64_OFFSET, SecretBytes(b, spans)) else 0
  }

  lemma TallyEnds(step: step64, b: bytes, spans: seq<Span>, redacted: u32, digest: u64, secretSeen: bool)
    requires Apart(spans, |b|) && Tallied(step, b, spans, redacted, digest, secretSeen)
    ensures redacted == Min(|spans|, LAST_SPAN) && SecretDigest(step, b, spans) == if secretSeen then digest else 0
  {
    hide Fold;
  }

  lemma ScanStarts(step: step64, b: bytes)
    ensures Scanned(b, [], 0) && Tallied(step, b, [], 0, FNV64_OFFSET, false) && Laid(b, [], 0, true) == []
  {
    hide SpansFrom;
    assert [] + SpansFrom(b, 0, 0) == SpansFrom(b, 0, 0);
  }

  lemma ScanEnds(b: bytes, done: seq<Span>)
    requires Scanned(b, done, |b|)
    ensures done == SpansOf(b)
  {
    assert done + [] == done;
  }

  lemma ScanSteps(b: bytes, done: seq<Span>, i: nat)
    requires Scanned(b, done, i) && i < |b|
    ensures match SpanAt(b, i, Edge(done)) {
              case None => Scanned(b, done, i + 1) && Laid(b, done, i + 1, true) == Laid(b, done, i, true) + [b[i]]
              case Some(s) =>
                && Scanned(b, done + [s], s.to) && Apart(done, s.from)
                && Laid(b, done + [s], s.to, true) == Laid(b, done, s.from, true) + Marker(s.kind, |done| + 1)
            }
  {
    hide SpanAt, Laid, Apart, Marker, SpansFrom;
    match SpanAt(b, i, Edge(done)) {
      case None =>
        LaidCopy(b, done, i);
        FromSteps(b, i, Edge(done));
      case Some(s) => ScanSpan(b, done, i, s);
    }
  }

  lemma FromSteps(b: bytes, i: nat, edge: nat)
    requires edge <= i < |b|
    ensures SpansFrom(b, i, edge) ==
              match SpanAt(b, i, edge) {
                case None => SpansFrom(b, i + 1, edge)
                case Some(s) => [s] + SpansFrom(b, s.to, s.to)
              }
  {
    hide SpanAt;
  }

  lemma LaidEnds(b: bytes, done: seq<Span>, s: Span)
    requires Apart(done, s.from) && s.from + MIN_SPAN <= s.to <= |b|
    ensures Apart(done + [s], s.to)
    ensures Laid(b, done + [s], s.to, true) == Laid(b, done, s.from, true) + Marker(s.kind, |done| + 1)
  {
    hide Laid, Apart, Marker;
    LaidSnoc(b, done, s, s.to, true);
    assert b[s.to..s.to] == [];
  }

  lemma ScanSpan(b: bytes, done: seq<Span>, i: nat, s: Span)
    requires Scanned(b, done, i) && i < |b| && SpanAt(b, i, Edge(done)) == Some(s)
    ensures Scanned(b, done + [s], s.to) && Apart(done, s.from)
    ensures Laid(b, done + [s], s.to, true) == Laid(b, done, s.from, true) + Marker(s.kind, |done| + 1)
  {
    hide SpanAt, Laid, Apart, Marker, SpansFrom;
    ApartEdge(done, i, s.from);
    ApartSnoc(done, s, s.to);
    LaidEnds(b, done, s);
    FromSteps(b, i, Edge(done));
    Joined(done, s, SpansFrom(b, s.to, s.to));
  }

  lemma Joined(done: seq<Span>, s: Span, rest: seq<Span>)
    ensures (done + [s]) + rest == done + ([s] + rest)
    ensures Edge(done + [s]) == s.to
  {
  }

  lemma TallySteps(step: step64, b: bytes, done: seq<Span>, s: Span, redacted: u32, digest: u64, secretSeen: bool)
    requires Tallied(step, b, done, redacted, digest, secretSeen) && s.from <= s.to <= |b|
    ensures var next := if redacted == LAST_SPAN then LAST_SPAN else redacted + 1;
            && next == Min(|done| + 1, LAST_SPAN)
            && Tallied(step, b, done + [s], next,
                       if s.kind.Secret? then Fold<u64>(step, digest, b[s.from..s.to]) else digest, secretSeen || s.kind.Secret?)
  {
    hide Fold, AnySecret;
    var all := done + [s];
    assert all[..|done|] == done && all[|done|] == s;
    assert forall k :: 0 <= k < |all| ==> all[k].from <= all[k].to <= |b|;
    assert SecretBytes(b, all) == SecretBytes(b, done) + if s.kind.Secret? then b[s.from..s.to] else [];
    assert SecretBytes(b, done) + [] == SecretBytes(b, done);
    if s.kind.Secret? {
      FoldConcat<u64>(step, FNV64_OFFSET, SecretBytes(b, done), b[s.from..s.to]);
    }
    AnyStep(done, s);
  }

  lemma AnyStep(done: seq<Span>, s: Span)
    ensures AnySecret(done + [s]) == (AnySecret(done) || s.kind.Secret?)
  {
    var all := done + [s];
    assert all[|done|] == s && forall k :: 0 <= k < |done| ==> all[k] == done[k];
  }

  /** The text so far ends in the email's local part, literally. */
  method EndsLiterally(b: bytes, i: nat, left: nat, output: array<u8>, out: nat, ghost done: seq<Span>) returns (same: bool)
    requires Scanned(b, done, i) && 1 <= left <= i && out <= output.Length && output[..out] == Laid(b, done, i, true)
    requires forall k :: i - left <= k < i ==> LocalChar(b[k])
    ensures same == (left <= i - Edge(done))
    ensures same ==> left <= out && Apart(done, i - left) && output[..out - left] == Laid(b, done, i - left, true)
  {
    hide Laid, Apart, SpansFrom, LocalChar;
    TailIsLiteral(b, done, i, left);
    var tail := output[if left <= out then out - left else 0..out];
    same := tail == b[i - left..i];
    assert left <= out ==> tail == output[..out][out - left..];
    if same {
      LaidRewind(b, done, i, left);
      assert output[..out][..out - left] == output[..out - left];
    }
  }

  /** Emit a span's marker at `at`, within the room the bound promises. */
  method Redact(b: bytes, output: array<u8>, at: nat, n: u32, ghost done: seq<Span>, s: Span) returns (out: nat)
    requires output.Length >= Bound(|b|) && at <= output.Length && s.from + MIN_SPAN <= s.to <= |b| && Apart(done, s.from)
    requires output[..at] == Laid(b, done, s.from, true) && n == Min(|done| + 1, LAST_SPAN)
    modifies output
    ensures out <= output.Length && Apart(done + [s], s.to) && output[..out] == Laid(b, done + [s], s.to, true)
  {
    hide Laid, Apart;
    ApartSnoc(done, s, s.to);
    LaidSnoc(b, done, s, s.to, true);
    assert b[s.to..s.to] == [];
    RoomEnough(b, done + [s], s.to);
    var emitted := EmitMarker(output, at, s.kind, n);
    out := emitted.value;
  }

  /** The span the scan makes at `i`, if any. An email counts only when the
      text so far ends literally in its local part. */
  method FindSpan(b: bytes, i: nat, output: array<u8>, out: nat, ghost done: seq<Span>) returns (span: Option<Span>)
    requires Scanned(b, done, i) && i < |b| && Apart(done, i) && out <= output.Length && output[..out] == Laid(b, done, i, true)
    ensures span == SpanAt(b, i, Edge(done))
    ensures span.Some? ==>
              && span.value.from <= i <= out + span.value.from && Apart(done, span.value.from)
              && output[..out - (i - span.value.from)] == Laid(b, done, span.value.from, true)
  {
    hide Laid, Apart, SpansFrom, MatchSecret, MatchPhone, MatchEmail, LocalChar;
    var secret := SecretAt(b, i);
    if secret.Some? {
      return Some(Span(Secret, i, i + secret.value));
    }
    if b[i] == AT {
      var email := FindEmail(b, i);
      if email.Some? {
        var (left, total) := email.value;
        var same := EndsLiterally(b, i, left, output, out, done);
        if same {
          return Some(Span(Pii, i - left, i - left + total));
        }
      }
    }
    if b[i] == PLUS || Digit(b[i]) {
      var phone := FindPhone(b, i);
      if phone.Some? {
        return Some(Span(Pii, i, i + phone.value));
      }
    }
    return None;
  }

  lemma NextFits(b: bytes, done: seq<Span>, i: nat)
    requires Scanned(b, done, i) && i < |b| && SpanAt(b, i, Edge(done)).None?
    ensures Apart(done, i) && |Laid(b, done, i, true)| < Bound(|b|)
  {
    hide Laid, Apart, SpansFrom, SpanAt;
    LaidCopy(b, done, i);
    RoomEnough(b, done, i + 1);
  }

  /** Mask `input` into `output`: refused exactly when the output is smaller
      than the bound, and never out of room after that. */
  method MaskReport(step: step64, input: bytes, output: array<u8>, top: nat) returns (r: Result<Report, Error>)
    requires output.Length < top
    modifies output
    ensures r.Ok? <==> output.Length >= |input| + 22 * (|input| / 6)
    ensures r.Err? ==> r.error == MaskOutputTooSmall
    ensures r.Ok? ==>
              && Apart(SpansOf(input), |input|) && r.value.len <= output.Length
              && output[..r.value.len] == Laid(input, SpansOf(input), |input|, true)
              && r.value.redacted == Min(|SpansOf(input)|, LAST_SPAN)
              && r.value.secretDigest == SecretDigest(step, input, SpansOf(input))
  {
    hide Laid, Apart, Fold, MatchSecret, MatchEmail, MatchPhone, SpansFrom, AnySecret, Tallied, Marker, SpanAt;
    if output.Length < MaskBound(|input|, top) {
      return Err(MaskOutputTooSmall);
    }
    var out: nat, redacted: u32, digest: u64, secretSeen, i: nat := 0, 0, FNV64_OFFSET, false, 0;
    ghost var done: seq<Span> := [];
    ScanStarts(step, input);
    while i < |input|
      invariant i <= |input| && out <= output.Length
      invariant Scanned(input, done, i) && Apart(done, i) && output[..out] == Laid(input, done, i, true)
      invariant Tallied(step, input, done, redacted, digest, secretSeen)
      decreases |input| - i
    {
      ScanSteps(input, done, i);
      var found := FindSpan(input, i, output, out, done);
      match found {
        case Some(span) =>
          TallySteps(step, input, done, span, redacted, digest, secretSeen);
          if span.kind.Secret? {
            digest := FoldBytes<u64>(step, digest, input[span.from..span.to]);
            secretSeen := true;
          }
          redacted := if redacted == LAST_SPAN then LAST_SPAN else redacted + 1;
          out := Redact(input, output, out - (i - span.from), redacted, done, span);
          done := done + [span];
          i := span.to;
        case None =>
          NextFits(input, done, i);
          var put := PutByte(output, out, input[i]);
          out := put.value;
          i := i + 1;
      }
    }
    ScanEnds(input, done);
    TallyEnds(step, input, done, redacted, digest, secretSeen);
    return Ok(Report(redacted, if secretSeen then digest else 0, out));
  }

  // Ingestion.

  const INPUT_MAX := 512

  predicate Control(x: u8) {
    x < 0x20 || x == 0x7F
  }

  function Printable(b: bytes): (r: bytes)
    ensures |r| == |b| && forall k :: 0 <= k < |b| ==> r[k] == (if Control(b[k]) then 0x20 else b[k]) && !Control(r[k])
  {
    seq(|b|, k requires 0 <= k < |b| => if Control(b[k]) then 0x20 else b[k])
  }

  /** Mask the whole input, cut to a note, and leave no control byte. */
  ghost function Ingested(raw: bytes): (r: Result<note, Error>)
    ensures r.Ok? <==> |raw| <= INPUT_MAX
    ensures r.Err? ==> r.error == MemoryInputTooLong
    ensures r.Ok? ==>
              && |r.value| == Min(NOTE_MAX, |Masked(raw)|)
              && forall k :: 0 <= k < |r.value| ==>
                   r.value[k] == if Masked(raw)[k] < 0x20 || Masked(raw)[k] == 0x7F then ' ' as int else Masked(raw)[k]
  {
    if |raw| > INPUT_MAX then Err(MemoryInputTooLong)
    else
      var masked := Masked(raw);
      Ok(Printable(masked[..Min(NOTE_MAX, |masked|)]))
  }

  /** The scratch buffer is always large enough: ingestion fails only for input
      past its limit. */
  method Ingest(step: step64, raw: bytes) returns (r: Result<note, Error>)
    ensures r == Ingested(raw)
  {
    hide Laid, Apart, SpansFrom;
    if |raw| > INPUT_MAX {
      return Err(MemoryInputTooLong);
    }
    var scratch := new u8[Bound(INPUT_MAX)](_ => 0);
    BoundGrows(|raw|, INPUT_MAX);
    var masked := MaskReport(step, raw, scratch, Bound(INPUT_MAX) + 1);
    var report := masked.value;
    var take := Min(report.len, NOTE_MAX);
    assert scratch[..report.len][..take] == scratch[..take];
    return Ok(Printable(scratch[..take]));
  }

  lemma BoundGrows(a: nat, b: nat)
    requires a <= b
    ensures Bound(a) <= Bound(b)
  {
  }
}
