/** The shapes masking knows, byte by byte, and that the matchers find exactly
    them. */
module MaskShapes {
  import opened Words
  import opened Mask

  /** The text `s` stands at `i`. */
  ghost predicate Reads(b: bytes, i: nat, s: string) {
    i + |s| <= |b| && forall k :: 0 <= k < |s| ==> b[i + k] == s[k] as int
  }

  ghost predicate Alphanumeric(x: u8) {
    '0' as int <= x <= '9' as int || 'A' as int <= x <= 'Z' as int || 'a' as int <= x <= 'z' as int
  }

  // Secrets.

  ghost predicate TokenByte(x: u8) {
    || Alphanumeric(x)
    || x == '.' as int || x == '_' as int || x == '~' as int || x == '+' as int || x == '/' as int || x == '-' as int || x == '=' as int
  }

  /** `anchor` bytes and then the longest run of token bytes, cut at 128, if it
      has at least 16. */
  ghost predicate Token(b: bytes, i: nat, anchor: nat, n: nat) {
    && anchor + 16 <= n <= anchor + 128 && i + n <= |b|
    && (forall k :: i + anchor <= k < i + n ==> TokenByte(b[k]))
    && (n == anchor + 128 || i + n == |b| || !TokenByte(b[i + n]))
  }

  /** A key of the `AKIA` kind: sixteen letters or digits after it. */
  ghost predicate AccessKey(b: bytes, i: nat, n: nat) {
    n == 20 && i + 20 <= |b| && forall k :: i + 4 <= k < i + 20 ==> Alphanumeric(b[k])
  }

  /** From the opening to the end of the first closing line that starts within
      2048 bytes, newline included. */
  ghost predicate Block(b: bytes, i: nat, n: nat) {
    exists c :: BlockTo(b, i, n, c)
  }

  ghost predicate BlockTo(b: bytes, i: nat, n: nat, c: nat) {
    && i + 11 <= c && c + 9 <= i + 2048 && Reads(b, c, "-----END ")
    && (forall d :: i + 11 <= d < c ==> !Reads(b, d, "-----END "))
    && c + 9 <= i + n <= |b|
    && (forall k :: c + 9 <= k < i + n - 1 ==> b[k] != '\n' as int)
    && (i + n == |b| || (i + n > c + 9 && b[i + n - 1] == '\n' as int))
  }

  /** A secret of `n` bytes stands at `i`. */
  ghost predicate SecretShape(b: bytes, i: nat, n: nat) {
    || (Reads(b, i, "-----BEGIN ") && Block(b, i, n))
    || (Reads(b, i, "sk_live_") && Token(b, i, 8, n))
    || (Reads(b, i, "sk_test_") && Token(b, i, 8, n))
    || (Reads(b, i, "github_pat_") && Token(b, i, 11, n))
    || (Reads(b, i, "sk-") && Token(b, i, 3, n))
    || (Reads(b, i, "AKIA") && AccessKey(b, i, n))
    || (Reads(b, i, "Bearer ") && Token(b, i, 7, n))
    || (Reads(b, i, "bearer ") && Token(b, i, 7, n))
  }

  lemma ReadsExact(b: bytes, i: nat, s: string)
    requires AsciiText(s)
    ensures StartsWith(b, i, Ascii(s)) <==> Reads(b, i, s)
  {
    if StartsWith(b, i, Ascii(s)) {
      forall k | 0 <= k < |s| ensures b[i + k] == s[k] as int {
        assert b[i..i + |s|][k] == Ascii(s)[k];
      }
    }
    if Reads(b, i, s) {
      assert b[i..i + |s|] == Ascii(s);
    }
  }

  lemma TokenBytes(x: u8)
    ensures TokenChar(x) <==> TokenByte(x)
    ensures Alnum(x) <==> Alphanumeric(x)
  {
  }

  /** A run has one end. */
  lemma RunEndIs(b: bytes, k: nat, limit: nat, member: u8 -> bool, end: nat)
    requires k <= end <= limit <= |b| && (forall j :: k <= j < end ==> member(b[j])) && (end < limit ==> !member(b[end]))
    ensures RunEnd(b, k, limit, member) == end
  {
  }

  lemma RunStartIs(b: bytes, k: nat, floor: nat, member: u8 -> bool, start: nat)
    requires floor <= start <= k <= |b| && (forall j :: start <= j < k ==> member(b[j])) && (start > floor ==> !member(b[start - 1]))
    ensures RunStart(b, k, floor, member) == start
  {
  }

  lemma TokenExact(b: bytes, i: nat, anchor: nat, n: nat)
    requires i + anchor <= |b|
    ensures MatchToken(b, i, anchor) == Some(n) <==> Token(b, i, anchor, n)
  {
    hide TokenChar, TokenByte, RunEnd;
    forall x: u8 ensures TokenChar(x) <==> TokenByte(x) {
      TokenBytes(x);
    }
    if Token(b, i, anchor, n) {
      RunEndIs(b, i + anchor, Min(|b|, i + anchor + TOKEN_TAIL), TokenChar, i + n);
    }
  }

  lemma AccessKeyExact(b: bytes, i: nat, n: nat)
    requires i <= |b|
    ensures MatchAkia(b, i) == Some(n) <==> AccessKey(b, i, n)
  {
    hide Alnum, Alphanumeric;
    forall x: u8 ensures Alnum(x) <==> Alphanumeric(x) {
      TokenBytes(x);
    }
  }

  /** The first closing line found is the first there is. */
  lemma {:induction false} CloseExact(b: bytes, k: nat, window: nat)
    requires window <= |b|
    ensures match FindClose(b, k, window) {
              case None => forall d :: k <= d && d + |PEM_CLOSE| <= window ==> !Reads(b, d, PEM_CLOSE)
              case Some(c) => k <= c && c + |PEM_CLOSE| <= window && Reads(b, c, PEM_CLOSE) && forall d :: k <= d < c ==> !Reads(b, d, PEM_CLOSE)
            }
    decreases window - k
  {
    hide Reads, StartsWith;
    if k + |PEM_CLOSE| <= window {
      ReadsExact(b, k, PEM_CLOSE);
      if !StartsWith(b, k, Ascii(PEM_CLOSE)) {
        CloseExact(b, k + 1, window);
      }
    }
  }

  lemma LineExact(b: bytes, from: nat, end: nat)
    requires from <= end <= |b|
    requires forall k :: from <= k < end ==> b[k] != '\n' as int
    requires end == |b| || b[end] == '\n' as int
    ensures RunEnd(b, from, |b|, NotNewline) == end
  {
    RunEndIs(b, from, |b|, NotNewline, end);
  }

  lemma BlockExact(b: bytes, i: nat, n: nat)
    requires i + |PEM_OPEN| <= |b|
    ensures MatchPem(b, i) == Some(n) <==> Block(b, i, n)
  {
    hide Reads, FindClose, RunEnd;
    var window := Min(|b|, i + PEM_WINDOW);
    CloseExact(b, i + |PEM_OPEN|, window);
    var found := FindClose(b, i + |PEM_OPEN|, window);
    if MatchPem(b, i) == Some(n) {
      assert BlockTo(b, i, n, found.value);
    }
    if Block(b, i, n) {
      var c: nat :| BlockTo(b, i, n, c);
      assert c + |PEM_CLOSE| <= window by { ReadsFits(b, c, PEM_CLOSE); }
      assert found == Some(c);
      var stop := if i + n > c + 9 && b[i + n - 1] == '\n' as int then i + n - 1 else i + n;
      LineExact(b, c + 9, stop);
    }
  }

  lemma ReadsFits(b: bytes, c: nat, s: string)
    requires Reads(b, c, s)
    ensures c + |s| <= |b|
  {
  }

  lemma Opens(b: bytes, i: nat, s: string, k: nat)
    requires i < |b| && k < |s|
    ensures Reads(b, i, s) ==> i + k < |b| && b[i] == s[0] as int && b[i + k] == s[k] as int
    ensures Reads(b, i, s) && |s| > 2 ==> b[i + 2] == s[2] as int
  {
    assert b[i + 0] == b[i];
  }

  /** At most one of the openings stands at a place. */
  lemma OneOpening(b: bytes, i: nat)
    requires i < |b|
    ensures Reads(b, i, "-----BEGIN ") ==> b[i] == 0x2D
    ensures Reads(b, i, "sk_live_") ==> b[i] == 0x73 && i + 3 < |b| && b[i + 2] == 0x5F && b[i + 3] == 0x6C
    ensures Reads(b, i, "sk_test_") ==> b[i] == 0x73 && i + 3 < |b| && b[i + 2] == 0x5F && b[i + 3] == 0x74
    ensures Reads(b, i, "github_pat_") ==> b[i] == 0x67
    ensures Reads(b, i, "sk-") ==> b[i] == 0x73 && i + 2 < |b| && b[i + 2] == 0x2D
    ensures Reads(b, i, "AKIA") ==> b[i] == 0x41
    ensures Reads(b, i, "Bearer ") ==> b[i] == 0x42
    ensures Reads(b, i, "bearer ") ==> b[i] == 0x62
  {
    hide Reads;
    Opens(b, i, "-----BEGIN ", 0);
    Opens(b, i, "sk_live_", 3);
    Opens(b, i, "sk_test_", 3);
    Opens(b, i, "github_pat_", 0);
    Opens(b, i, "sk-", 2);
    Opens(b, i, "AKIA", 0);
    Opens(b, i, "Bearer ", 0);
    Opens(b, i, "bearer ", 0);
  }

  /** The secret matchers find exactly the secret shapes. */
  lemma SecretExact(b: bytes, i: nat, n: nat)
    requires i < |b|
    ensures MatchSecret(b, i) == Some(n) <==> SecretShape(b, i, n)
  {
    hide Reads, StartsWith, MatchPem, MatchToken, MatchAkia, Token, Block, AccessKey;
    ReadsExact(b, i, "-----BEGIN ");
    ReadsExact(b, i, "sk_live_");
    ReadsExact(b, i, "sk_test_");
    ReadsExact(b, i, "github_pat_");
    ReadsExact(b, i, "sk-");
    ReadsExact(b, i, "AKIA");
    ReadsExact(b, i, "Bearer ");
    ReadsExact(b, i, "bearer ");
    OneOpening(b, i);
    if Reads(b, i, "-----BEGIN ") {
      ReadsFits(b, i, "-----BEGIN ");
      BlockExact(b, i, n);
    }
    if Reads(b, i, "sk_live_") {
      ReadsFits(b, i, "sk_live_");
      TokenExact(b, i, 8, n);
    }
    if Reads(b, i, "sk_test_") {
      ReadsFits(b, i, "sk_test_");
      TokenExact(b, i, 8, n);
    }
    if Reads(b, i, "github_pat_") {
      ReadsFits(b, i, "github_pat_");
      TokenExact(b, i, 11, n);
    }
    if Reads(b, i, "sk-") {
      ReadsFits(b, i, "sk-");
      TokenExact(b, i, 3, n);
    }
    AccessKeyExact(b, i, n);
    if Reads(b, i, "Bearer ") {
      ReadsFits(b, i, "Bearer ");
      TokenExact(b, i, 7, n);
    }
    if Reads(b, i, "bearer ") {
      ReadsFits(b, i, "bearer ");
      TokenExact(b, i, 7, n);
    }
  }

  // Personal data.

  ghost predicate DigitByte(x: u8) {
    '0' as int <= x <= '9' as int
  }

  ghost predicate SeparatorByte(x: u8) {
    x == ' ' as int || x == '-' as int || x == '.' as int || x == '(' as int || x == ')' as int
  }

  /** A phone number of `n` bytes stands at `i`: a digit, or a `+` before one,
      and on as far as digits and separators go, the separators at the end left
      out; 7 to 15 digits, and no more than 11 when nothing but a `+` is with
      them. */
  ghost predicate PhoneShape(b: bytes, i: nat, n: nat) {
    exists run :: PhoneTo(b, i, n, run)
  }

  ghost predicate PhoneTo(b: bytes, i: nat, n: nat, run: nat) {
    && i < run <= |b| && n <= run - i
    && (DigitByte(b[i]) || (b[i] == '+' as int && i + 1 < |b| && DigitByte(b[i + 1])))
    && (forall k :: i < k < run ==> DigitByte(b[k]) || SeparatorByte(b[k]))
    && (run < |b| ==> !DigitByte(b[run]) && !SeparatorByte(b[run]))
    && n > 0 && !SeparatorByte(b[i + n - 1])
    && (forall k :: i + n <= k < run ==> SeparatorByte(b[k]))
    && var digits := |set k | i <= k < i + n && DigitByte(b[k])|;
       && 7 <= digits <= 15
       && (digits > 11 ==> exists k :: i <= k < i + n && SeparatorByte(b[k]))
  }

  ghost predicate LocalByte(x: u8) {
    || Alphanumeric(x)
    || x == '.' as int || x == '_' as int || x == '%' as int || x == '+' as int || x == '-' as int
  }

  ghost predicate DomainByte(x: u8) {
    Alphanumeric(x) || x == '.' as int || x == '-' as int
  }

  /** An address around the `@` at `at`: all the local bytes to its left, `left`
      of them and at least one, and all the domain bytes to its right, dots at
      the end left out, at least four with a dot among them; `total` in all. */
  ghost predicate EmailShape(b: bytes, at: nat, left: nat, total: nat) {
    exists run :: EmailTo(b, at, left, total, run)
  }

  ghost predicate EmailTo(b: bytes, at: nat, left: nat, total: nat, run: nat) {
    && at < run <= |b| && b[at] == '@' as int
    && 1 <= left <= at && left + 5 <= total <= run - (at - left)
    && (forall k :: at - left <= k < at ==> LocalByte(b[k]))
    && (left < at ==> !LocalByte(b[at - left - 1]))
    && (forall k :: at < k < run ==> DomainByte(b[k]))
    && (run < |b| ==> !DomainByte(b[run]))
    && b[at - left + total - 1] != '.' as int
    && (forall k :: at - left + total <= k < run ==> b[k] == '.' as int)
    && exists k :: at < k < at - left + total && b[k] == '.' as int
  }

  lemma PhoneBytes(x: u8)
    ensures Digit(x) <==> DigitByte(x)
    ensures PhoneSep(x) <==> SeparatorByte(x)
    ensures !(Digit(x) && PhoneSep(x))
  {
  }

  lemma EmailBytes(x: u8)
    ensures LocalChar(x) <==> LocalByte(x)
    ensures DomainChar(x) <==> DomainByte(x)
  {
  }

  lemma PhoneClasses()
    ensures forall x: u8 :: (Digit(x) <==> DigitByte(x)) && (PhoneSep(x) <==> SeparatorByte(x)) && !(Digit(x) && PhoneSep(x))
    ensures !Digit(PLUS) && !PhoneSep(PLUS)
  {
  }

  lemma EmailClasses()
    ensures forall x: u8 :: (LocalChar(x) <==> LocalByte(x)) && (DomainChar(x) <==> DomainByte(x)) && (IsDot(x) <==> x == '.' as int)
  {
  }

  /** Counting one by one is the size of the set counted. */
  lemma {:induction false} CountIs(b: bytes, from: nat, to: nat)
    requires from <= to <= |b|
    ensures CountDigits(b, from, to) == |set k | from <= k < to && DigitByte(b[k])|
  {
    if from < to {
      CountIs(b, from, to - 1);
      var before := set k | from <= k < to - 1 && DigitByte(b[k]);
      var now := set k | from <= k < to && DigitByte(b[k]);
      assert now == if DigitByte(b[to - 1]) then before + {to - 1} else before;
    }
  }

  lemma {:induction false} AllDigitsCount(b: bytes, from: nat, to: nat)
    requires from <= to <= |b|
    ensures CountDigits(b, from, to) <= to - from
    ensures CountDigits(b, from, to) == to - from <==> forall k :: from <= k < to ==> Digit(b[k])
  {
    if from < to {
      AllDigitsCount(b, from, to - 1);
    }
  }

  lemma {:induction false} CountSplit(b: bytes, from: nat, mid: nat, to: nat)
    requires from <= mid <= to <= |b| && forall k :: mid <= k < to ==> PhoneSep(b[k])
    ensures CountDigits(b, from, to) == CountDigits(b, from, mid)
  {
    if mid < to {
      CountSplit(b, from, mid, to - 1);
      PhoneBytes(b[to - 1]);
    }
  }

  lemma {:induction false} CountHead(b: bytes, from: nat, to: nat)
    requires from < to <= |b|
    ensures CountDigits(b, from, to) == (if Digit(b[from]) then 1 else 0) + CountDigits(b, from + 1, to)
  {
    if from + 1 < to {
      CountHead(b, from, to - 1);
    }
  }

  /** The digits of a run are those before its trimmed end; and only they stand
      there exactly when the trimmed length is their count and the `+`'s. */
  lemma PhoneCounts(b: bytes, i: nat, plus: nat, end: nat, run: nat)
    requires plus <= 1 && i + plus < end <= run <= |b|
    requires if plus == 1 then b[i] == PLUS else Digit(b[i])
    requires forall k :: i + plus <= k < run ==> PhoneChar(b[k])
    requires forall k :: end <= k < run ==> PhoneSep(b[k])
    ensures var digits := |set k | i <= k < end && DigitByte(b[k])|;
            && CountDigits(b, i + plus, run) == digits
            && (end - i <= digits + plus <==> forall k :: i <= k < end ==> !SeparatorByte(b[k]))
  {
    hide CountDigits, DigitByte, SeparatorByte, Digit, PhoneSep;
    CountIs(b, i, end);
    CountSplit(b, i + plus, end, run);
    AllDigitsCount(b, i + plus, end);
    PhoneClasses();
    if plus == 1 {
      CountHead(b, i, end);
    }
    assert (forall k :: i <= k < end ==> !SeparatorByte(b[k])) <==> forall k :: i + plus <= k < end ==> Digit(b[k]);
  }

  lemma PhoneThere(b: bytes, i: nat, n: nat)
    requires i < |b| && PhoneAt(b, i) == Some(n)
    ensures PhoneShape(b, i, n)
  {
    hide CountDigits, RunEnd, RunStart, Digit, PhoneSep, DigitByte, SeparatorByte;
    PhoneClasses();
    var plus := if b[i] == PLUS then 1 else 0;
    var run := RunEnd(b, i + plus, |b|, PhoneChar);
    var end := RunStart(b, run, i, PhoneSep);
    Trimmed(b, i, plus, end, run);
    PhoneCounts(b, i, plus, end, run);
    assert forall k :: i < k < run ==> PhoneChar(b[k]);
    assert n == end - i;
    assert PhoneTo(b, i, n, run);
  }

  /** The first digit is never trimmed. */
  lemma Trimmed(b: bytes, i: nat, plus: nat, end: nat, run: nat)
    requires plus <= 1 && i + plus < |b| && Digit(b[i + plus]) && (plus == 1 ==> b[i] == PLUS)
    requires run == RunEnd(b, i + plus, |b|, PhoneChar) && i <= end <= run && forall k :: end <= k < run ==> PhoneSep(b[k])
    ensures i + plus < end
  {
    PhoneClasses();
    assert !PhoneSep(b[i + plus]);
  }

  lemma PhoneBack(b: bytes, i: nat, n: nat)
    requires i < |b| && PhoneShape(b, i, n)
    ensures PhoneAt(b, i) == Some(n)
  {
    hide CountDigits, RunEnd, RunStart, Digit, PhoneSep, DigitByte, SeparatorByte;
    PhoneClasses();
    var run: nat :| PhoneTo(b, i, n, run);
    var plus := if b[i] == PLUS then 1 else 0;
    RunEndIs(b, i + plus, |b|, PhoneChar, run);
    RunStartIs(b, run, i, PhoneSep, i + n);
    Trimmed(b, i, plus, i + n, run);
    PhoneCounts(b, i, plus, i + n, run);
  }

  /** The phone matcher finds exactly the phone shapes. */
  lemma PhoneExact(b: bytes, i: nat, n: nat)
    requires i < |b|
    ensures PhoneAt(b, i) == Some(n) <==> PhoneShape(b, i, n)
  {
    hide PhoneAt, PhoneShape;
    if PhoneAt(b, i) == Some(n) {
      PhoneThere(b, i, n);
    }
    if PhoneShape(b, i, n) {
      PhoneBack(b, i, n);
    }
  }

  lemma DotAmong(b: bytes, from: nat, to: nat)
    requires from <= to <= |b|
    ensures DOT in b[from..to] <==> exists k :: from <= k < to && b[k] == '.' as int
  {
    var cut := b[from..to];
    assert forall k :: 0 <= k < |cut| ==> cut[k] == b[from + k];
    forall k | from <= k < to && b[k] == DOT ensures DOT in cut {
      assert cut[k - from] == DOT;
    }
  }

  lemma EmailThere(b: bytes, at: nat, left: nat, total: nat)
    requires at < |b| && EmailAt(b, at) == Some((left, total))
    ensures EmailShape(b, at, left, total)
  {
    hide RunEnd, RunStart, LocalChar, DomainChar, LocalByte, DomainByte, IsDot;
    EmailClasses();
    var run := RunEnd(b, at + 1, |b|, DomainChar);
    DotAmong(b, at + 1, at - left + total);
    assert EmailTo(b, at, left, total, run);
  }

  lemma EmailBack(b: bytes, at: nat, left: nat, total: nat)
    requires at < |b| && EmailShape(b, at, left, total)
    ensures EmailAt(b, at) == Some((left, total))
  {
    hide RunEnd, RunStart, EmailTo;
    var run: nat :| EmailTo(b, at, left, total, run);
    EmailRuns(b, at, left, total, run);
  }

  lemma EmailRuns(b: bytes, at: nat, left: nat, total: nat, run: nat)
    requires EmailTo(b, at, left, total, run)
    ensures at < run <= |b| && 1 <= left <= at && left + 5 <= total <= run - (at - left)
    ensures b[at] == AT && RunStart(b, at, 0, LocalChar) == at - left
    ensures RunEnd(b, at + 1, |b|, DomainChar) == run && RunStart(b, run, at + 1, IsDot) == at - left + total
    ensures DOT in b[at + 1..at - left + total]
  {
    hide RunEnd, RunStart, LocalChar, DomainChar, LocalByte, DomainByte, IsDot;
    EmailClasses();
    RunStartIs(b, at, 0, LocalChar, at - left);
    RunEndIs(b, at + 1, |b|, DomainChar, run);
    RunStartIs(b, run, at + 1, IsDot, at - left + total);
    DotAmong(b, at + 1, at - left + total);
  }

  /** The email matcher finds exactly the address shapes. */
  lemma EmailExact(b: bytes, at: nat, left: nat, total: nat)
    requires at < |b|
    ensures EmailAt(b, at) == Some((left, total)) <==> EmailShape(b, at, left, total)
  {
    hide EmailAt, EmailShape;
    if EmailAt(b, at) == Some((left, total)) {
      EmailThere(b, at, left, total);
    }
    if EmailShape(b, at, left, total) {
      EmailBack(b, at, left, total);
    }
  }

  // Markers.

  /** A marker spells its class and its number, in square brackets. */
  lemma MarkerText(c: Class, n: nat)
    requires n <= LAST_SPAN
    ensures var tag := if c.Secret? then "[redacted:secret#" else "[redacted:pii#";
            && Reads(Marker(c, n), 0, tag)
            && Marker(c, n)[|tag|..] == Decimal(n) + [']' as int]
  {
    hide Decimal;
  }
}
