/**
The strings that name envelopes, leases and associated data: how the plugin
builds them, and why two different things never share a name.
*/
module Refs {

  const NUL: char := '\0'

  function FirstNonEmpty(a: string, b: string): string {
    if a != "" then a else b
  }

  // ---------- strings.Trim(s, "/") and the separator replacer ----------

  function DropLeadingSlashes(s: string): string {
    if s != "" && s[0] == '/' then DropLeadingSlashes(s[1..]) else s
  }

  function DropTrailingSlashes(s: string): string {
    if s != "" && s[|s| - 1] == '/' then DropTrailingSlashes(s[..|s| - 1]) else s
  }

  function TrimSlashes(s: string): string {
    DropTrailingSlashes(DropLeadingSlashes(s))
  }

  /** No separator survives in a clean string. */
  predicate Clean(s: string) {
    '/' !in s && NUL !in s
  }

  /** One left-to-right pass that turns "://", "/" and NUL into "-". */
  function ReplaceSeparators(s: string): string {
    if s == "" then ""
    else if |s| >= 3 && s[0] == ':' && s[1] == '/' && s[2] == '/' then "-" + ReplaceSeparators(s[3..])
    else if s[0] == '/' || s[0] == NUL then "-" + ReplaceSeparators(s[1..])
    else [s[0]] + ReplaceSeparators(s[1..])
  }

  function Sanitize(s: string): string {
    ReplaceSeparators(TrimSlashes(s))
  }

  lemma {:induction false} ReplaceIsClean(s: string)
    ensures Clean(ReplaceSeparators(s))
    ensures s != "" ==> ReplaceSeparators(s) != ""
  {
    if |s| >= 3 && s[0] == ':' && s[1] == '/' && s[2] == '/' {
      ReplaceIsClean(s[3..]);
    } else if s != "" {
      ReplaceIsClean(s[1..]);
    }
  }

  lemma {:induction false} ReplaceKeepsClean(s: string)
    requires Clean(s)
    ensures ReplaceSeparators(s) == s
  {
    if s != "" {
      assert s[0] in s && (|s| >= 2 ==> s[1] in s);
      ReplaceKeepsClean(s[1..]);
    }
  }

  predicate OnlySlashes(s: string) {
    forall c | c in s :: c == '/'
  }

  lemma {:induction false} TrimLeadingEmpties(s: string)
    ensures DropLeadingSlashes(s) == "" <==> OnlySlashes(s)
    ensures DropLeadingSlashes(s) != "" ==> DropLeadingSlashes(s)[0] != '/'
  {
    if s != "" && s[0] == '/' {
      TrimLeadingEmpties(s[1..]);
      assert s == [s[0]] + s[1..];
      assert forall c | c in s[1..] :: c in s;
    } else if s != "" {
      assert s[0] in s;
    }
  }

  lemma {:induction false} TrimTrailingKeepsHead(s: string)
    requires s != "" && s[0] != '/'
    ensures DropTrailingSlashes(s) != "" && DropTrailingSlashes(s)[0] != '/'
    ensures DropTrailingSlashes(s)[|DropTrailingSlashes(s)| - 1] != '/'
  {
    if s[|s| - 1] == '/' {
      TrimTrailingKeepsHead(s[..|s| - 1]);
    }
  }

  /** Trimming empties exactly the texts made of slashes, and leaves no slash at either end. */
  lemma TrimEmptiesSlashes(s: string)
    ensures TrimSlashes(s) == "" <==> OnlySlashes(s)
    ensures TrimSlashes(s) != "" ==> TrimSlashes(s)[0] != '/' && TrimSlashes(s)[|TrimSlashes(s)| - 1] != '/'
    ensures TrimSlashes(TrimSlashes(s)) == TrimSlashes(s)
  {
    var t := DropLeadingSlashes(s);
    TrimLeadingEmpties(s);
    if t != "" {
      TrimTrailingKeepsHead(t);
      TrimKeepsBare(TrimSlashes(s));
    }
  }

  /** Sanitised text holds no separator; it is empty exactly when there was nothing but slashes. */
  lemma SanitizeIsClean(s: string)
    ensures Clean(Sanitize(s))
    ensures Sanitize(s) == "" <==> OnlySlashes(s)
  {
    TrimEmptiesSlashes(s);
    ReplaceIsClean(TrimSlashes(s));
  }

  /** Trimming removes nothing from a string that neither starts nor ends with a slash. */
  lemma TrimKeepsBare(s: string)
    requires s != "" && s[0] != '/' && s[|s| - 1] != '/'
    ensures TrimSlashes(s) == s
  {}

  /** Sanitising is idempotent: its own output passes through unchanged. */
  lemma SanitizeIdempotent(s: string)
    ensures Sanitize(Sanitize(s)) == Sanitize(s)
  {
    var r := Sanitize(s);
    ReplaceIsClean(TrimSlashes(s));
    ReplaceKeepsClean(r);
    if r != "" {
      assert r[0] in r && r[|r| - 1] in r;
      TrimKeepsBare(r);
    }
  }

  // ---------- decimal numerals, as fmt.Sprint prints them ----------

  function Digits(n: nat): (r: string)
    ensures r != "" && Clean(r)
  {
    if n < 10 then [('0' as int + n) as char] else Digits(n / 10) + [('0' as int + n % 10) as char]
  }

  function Decimal(n: int): (r: string)
    ensures r != "" && Clean(r)
  {
    if n < 0 then "-" + Digits(-n) else Digits(n)
  }

  // ---------- envelope and lease refs ----------

  const SCHEME := "signal-envelope://"
  const FLAT_SCHEME := "signal-envelope-"
  const LEASE := "lease://signal/outbox/"

  /** The text an envelope ref is derived from, before sanitising. */
  function RefSource(idempotencyKey: string, senderRef: string, recipientRef: string, messageRef: string): string {
    FirstNonEmpty(idempotencyKey, FirstNonEmpty(messageRef, senderRef + [NUL] + recipientRef))
  }

  /** `nanos` is the clock reading used when nothing is left of the source text. */
  function EnvelopeRef(queue: string, idempotencyKey: string, senderRef: string, recipientRef: string,
                       messageRef: string, nanos: int): (ref: string)
  {
    var base := Sanitize(TrimSlashes(RefSource(idempotencyKey, senderRef, recipientRef, messageRef)));
    SCHEME + queue + "/" + (if base == "" then Decimal(nanos) else base)
  }

  /** A ref this plugin generates: a queue name and a non-empty clean segment. */
  predicate IsGenerated(queue: string, ref: string) {
    var prefix := SCHEME + queue + "/";
    prefix < ref && Clean(ref[|prefix|..])
  }

  lemma EnvelopeRefIsGenerated(queue: string, idempotencyKey: string, senderRef: string, recipientRef: string,
                               messageRef: string, nanos: int)
    ensures IsGenerated(queue, EnvelopeRef(queue, idempotencyKey, senderRef, recipientRef, messageRef, nanos))
  {
    var base := Sanitize(TrimSlashes(RefSource(idempotencyKey, senderRef, recipientRef, messageRef)));
    var prefix := SCHEME + queue + "/";
    var segment := if base == "" then Decimal(nanos) else base;
    ReplaceIsClean(TrimSlashes(TrimSlashes(RefSource(idempotencyKey, senderRef, recipientRef, messageRef))));
    assert (prefix + segment)[|prefix|..] == segment;
  }

  function LeaseFor(holder: string, ref: string): string {
    LEASE + Sanitize(holder) + "/" + Sanitize(ref)
  }

  /** `leaseRef` was issued for the envelope `ref`, to some holder. */
  ghost predicate LeaseOf(leaseRef: string, ref: string) {
    exists holder :: leaseRef == LeaseFor(holder, ref)
  }

  lemma ReplacePlainHead(head: char, tail: string)
    requires head != '/' && head != NUL && (head == ':' && tail != "" ==> tail[0] != '/')
    ensures ReplaceSeparators([head] + tail) == [head] + ReplaceSeparators(tail)
  {
    assert ([head] + tail)[1..] == tail;
  }

  lemma ReplaceSeparatorHead(tail: string)
    ensures ReplaceSeparators("/" + tail) == "-" + ReplaceSeparators(tail)
    ensures ReplaceSeparators([NUL] + tail) == "-" + ReplaceSeparators(tail)
    ensures ReplaceSeparators("://" + tail) == "-" + ReplaceSeparators(tail)
  {
    assert ("/" + tail)[1..] == tail;
    assert ([NUL] + tail)[1..] == tail;
    assert ("://" + tail)[3..] == tail;
  }

  // A clean prefix passes through the replacer untouched, unless its last colon meets a slash.
  lemma {:induction false} ReplaceAfterPlainPrefix(prefix: string, s: string)
    requires Clean(prefix)
    requires prefix != "" && prefix[|prefix| - 1] == ':' && s != "" ==> s[0] != '/'
    ensures ReplaceSeparators(prefix + s) == prefix + ReplaceSeparators(s)
    decreases |prefix|
  {
    if prefix == "" {
      assert prefix + s == s;
    } else {
      var first, rest := prefix[0], prefix[1..];
      assert first in prefix && (rest != "" ==> rest[0] in prefix);
      assert Clean(rest) by {
        assert forall c | c in rest :: c in prefix;
      }
      ReplaceAfterPlainPrefix(rest, s);
      ReplacePlainHead(first, rest + s);
      Regroup(prefix, s);
      Regroup(prefix, ReplaceSeparators(s));
    }
  }

  lemma Regroup(prefix: string, s: string)
    requires prefix != ""
    ensures prefix + s == [prefix[0]] + (prefix[1..] + s)
  {}

  lemma ReplaceGenerated(segment: string)
    requires Clean(segment)
    ensures ReplaceSeparators("signal-envelope" + ("://" + ("outbox" + ("/" + segment))))
         == "signal-envelope" + ("-" + ("outbox" + ("-" + segment)))
  {
    var tail := "outbox" + ("/" + segment);
    ReplaceAfterPlainPrefix("signal-envelope", "://" + tail);
    ReplaceSeparatorHead(tail);
    ReplaceAfterPlainPrefix("outbox", "/" + segment);
    ReplaceSeparatorHead(segment);
    ReplaceKeepsClean(segment);
  }

  lemma SanitizeGenerated(segment: string)
    requires segment != "" && Clean(segment)
    ensures Sanitize(SCHEME + "outbox/" + segment) == FLAT_SCHEME + "outbox-" + segment
  {
    var ref := SCHEME + "outbox/" + segment;
    assert segment[|segment| - 1] in segment;
    TrimKeepsBare(ref);
    ReplaceGenerated(segment);
    assert ref == "signal-envelope" + ("://" + ("outbox" + ("/" + segment)));
    assert "signal-envelope" + ("-" + ("outbox" + ("-" + segment))) == FLAT_SCHEME + "outbox-" + segment;
  }

  /** Sanitising loses information in general, but not on generated outbox refs. */
  lemma SanitizeInjectiveOnGenerated(ref: string, other: string)
    requires IsGenerated("outbox", ref) && IsGenerated("outbox", other)
    requires Sanitize(ref) == Sanitize(other)
    ensures ref == other
  {
    var n := |SCHEME + "outbox/"|;
    assert ref == SCHEME + "outbox/" + ref[n..] && other == SCHEME + "outbox/" + other[n..];
    SanitizeGenerated(ref[n..]);
    SanitizeGenerated(other[n..]);
    var flat := FLAT_SCHEME + "outbox-";
    assert ref[n..] == Sanitize(ref)[|flat|..] && other[n..] == Sanitize(other)[|flat|..];
  }

  /** A separator that occurs in neither left part splits the join in one way only. */
  lemma JoinInjective(sep: char, a: string, b: string, c: string, d: string)
    requires sep !in a && sep !in c
    requires a + [sep] + b == c + [sep] + d
    ensures a == c && b == d
  {
    var s, t := a + [sep] + b, c + [sep] + d;
    assert s[|a|] == sep && t[|c|] == sep;
    if |a| < |c| {
      assert false;
    } else if |c| < |a| {
      assert false;
    } else {
      assert a == s[..|a|] && c == t[..|c|];
      assert b == s[|a| + 1..] && d == t[|c| + 1..];
    }
  }

  /** A lease ref names its envelope: no holder can obtain it for another one. */
  lemma LeaseNamesItsEnvelope(leaseRef: string, ref: string, other: string)
    requires IsGenerated("outbox", ref) && IsGenerated("outbox", other)
    requires LeaseOf(leaseRef, ref) && LeaseOf(leaseRef, other)
    ensures ref == other
  {
    var h :| leaseRef == LeaseFor(h, ref);
    var k :| leaseRef == LeaseFor(k, other);
    ReplaceIsClean(TrimSlashes(h));
    ReplaceIsClean(TrimSlashes(k));
    var left, right := Sanitize(h) + ['/'] + Sanitize(ref), Sanitize(k) + ['/'] + Sanitize(other);
    assert leaseRef == LEASE + left == LEASE + right;
    assert left == leaseRef[|LEASE|..] == right;
    JoinInjective('/', Sanitize(h), Sanitize(ref), Sanitize(k), Sanitize(other));
    SanitizeInjectiveOnGenerated(ref, other);
  }

  // ---------- when two submissions share an envelope ----------

  /** The last part of an envelope ref: a source text of nothing but slashes leaves it to the clock. */
  function Segment(source: string, nanos: int): string {
    if OnlySlashes(source) then Decimal(nanos) else ReplaceSeparators(TrimSlashes(source))
  }

  /**
  Two submissions share an envelope ref exactly when their source texts give the
  same segment: the key, or else the message ref, or else sender and recipient.
  What is not the source text plays no part.
  */
  lemma RefsCollideIffSegmentsDo(queue: string, a: string, b: string, sender: string, recipient: string,
                                 otherSender: string, otherRecipient: string, message: string,
                                 otherMessage: string, nanos: int, otherNanos: int)
    ensures EnvelopeRef(queue, a, sender, recipient, message, nanos)
         == EnvelopeRef(queue, b, otherSender, otherRecipient, otherMessage, otherNanos)
       <==> (Segment(RefSource(a, sender, recipient, message), nanos)
             == Segment(RefSource(b, otherSender, otherRecipient, otherMessage), otherNanos))
  {
    RefEndsInSegment(queue, a, sender, recipient, message, nanos);
    RefEndsInSegment(queue, b, otherSender, otherRecipient, otherMessage, otherNanos);
    var prefix := SCHEME + queue + "/";
    var left, right := Segment(RefSource(a, sender, recipient, message), nanos),
                       Segment(RefSource(b, otherSender, otherRecipient, otherMessage), otherNanos);
    assert (prefix + left)[|prefix|..] == left && (prefix + right)[|prefix|..] == right;
  }

  lemma RefEndsInSegment(queue: string, key: string, sender: string, recipient: string, message: string, nanos: int)
    ensures EnvelopeRef(queue, key, sender, recipient, message, nanos)
         == SCHEME + queue + "/" + Segment(RefSource(key, sender, recipient, message), nanos)
  {
    var source := RefSource(key, sender, recipient, message);
    TrimEmptiesSlashes(source);
    SanitizeIsClean(TrimSlashes(source));
    if TrimSlashes(source) != "" {
      assert TrimSlashes(source)[0] in TrimSlashes(source);
    }
  }

  /** Keys without a slash or a NUL name different envelopes exactly when they differ, whatever the clock says. */
  lemma PlainKeysNeverCollide(a: string, b: string, nanos: int, otherNanos: int)
    requires a != "" && b != "" && Clean(a) && Clean(b)
    ensures Segment(a, nanos) == Segment(b, otherNanos) <==> a == b
  {
    PlainSegment(a, nanos);
    PlainSegment(b, otherNanos);
  }

  lemma PlainSegment(key: string, nanos: int)
    requires key != "" && Clean(key)
    ensures Segment(key, nanos) == key
  {
    assert key[0] in key && key[|key| - 1] in key;
    TrimKeepsBare(key);
    ReplaceKeepsClean(key);
  }

  /**
  Keys of nothing but slashes: two of them share a ref exactly when the clock
  readings are equal, and each shares one with the key that spells its reading.
  */
  lemma SlashKeysFollowTheClock(a: string, b: string, nanos: int, otherNanos: int)
    requires OnlySlashes(a) && OnlySlashes(b)
    ensures Segment(a, nanos) == Segment(b, otherNanos) <==> nanos == otherNanos
    ensures Segment(a, nanos) == Segment(Decimal(nanos), otherNanos)
  {
    DecimalReads(nanos);
    DecimalReads(otherNanos);
    PlainSegment(Decimal(nanos), otherNanos);
  }

  /** What a row of decimal digits amounts to. */
  function DigitsValue(s: string): int {
    if s == "" then 0 else 10 * DigitsValue(s[..|s| - 1]) + (s[|s| - 1] as int - 48)
  }

  function NumeralValue(s: string): int {
    if s != "" && s[0] == '-' then -DigitsValue(s[1..]) else DigitsValue(s)
  }

  lemma {:induction false} DigitsRead(n: nat)
    ensures DigitsValue(Digits(n)) == n
  {
    var s := Digits(n);
    if n >= 10 {
      DigitsRead(n / 10);
      assert s[..|s| - 1] == Digits(n / 10);
    } else {
      assert s[..0] == "";
    }
  }

  lemma {:induction false} DigitsHoldNoSign(n: nat)
    ensures Digits(n)[0] != '-'
  {
    if n >= 10 {
      DigitsHoldNoSign(n / 10);
      assert Digits(n)[0] == Digits(n / 10)[0];
    }
  }

  lemma DecimalSign(n: int)
    ensures Decimal(n)[0] == '-' <==> n < 0
  {
    if n >= 0 {
      DigitsHoldNoSign(n);
    }
  }

  /** A reading prints as the numeral that reads back as it. */
  lemma DecimalReads(n: int)
    ensures NumeralValue(Decimal(n)) == n
  {
    DecimalSign(n);
    DigitsRead(if n < 0 then -n else n);
    assert n < 0 ==> Decimal(n)[1..] == Digits(-n);
  }

  lemma SeparatedSegment(a: string, tail: string, nanos: int)
    requires a != "" && Clean(a) && tail != "" && tail[|tail| - 1] != '/'
    requires a[|a| - 1] == ':' ==> tail[0] != '/'
    ensures Segment(a + tail, nanos) == a + ReplaceSeparators(tail)
  {
    var source := a + tail;
    assert a[0] in a && source[0] == a[0] && source[0] in source;
    assert source[|source| - 1] == tail[|tail| - 1];
    TrimKeepsBare(source);
    ReplaceAfterPlainPrefix(a, tail);
  }

  /** Sender and recipient make up the source text when neither key nor message ref is given. */
  lemma JoinedSegment(sender: string, recipient: string, nanos: int)
    requires sender != "" && recipient != "" && Clean(sender) && Clean(recipient)
    ensures Segment(sender + [NUL] + recipient, nanos) == sender + "-" + recipient
  {
    assert recipient[|recipient| - 1] in recipient;
    assert sender + [NUL] + recipient == sender + ([NUL] + recipient);
    SeparatedSegment(sender, [NUL] + recipient, nanos);
    ReplaceSeparatorHead(recipient);
    ReplaceKeepsClean(recipient);
    assert sender + ("-" + recipient) == sender + "-" + recipient;
  }

  /**
  The names of envelopes, for texts without separators: the idempotency key
  names the envelope, or else the message ref, or else sender and recipient.
  */
  lemma PlainRefsRead(queue: string, key: string, sender: string, recipient: string, message: string, nanos: int)
    requires Clean(key) && Clean(message) && Clean(sender) && Clean(recipient)
    requires sender != "" && recipient != ""
    ensures EnvelopeRef(queue, key, sender, recipient, message, nanos)
         == "signal-envelope://" + queue + "/"
              + if key != "" then key else if message != "" then message else sender + "-" + recipient
  {
    RefEndsInSegment(queue, key, sender, recipient, message, nanos);
    if key != "" {
      PlainSegment(key, nanos);
    } else if message != "" {
      PlainSegment(message, nanos);
    } else {
      JoinedSegment(sender, recipient, nanos);
    }
  }

  lemma {:induction false} TrimLeadingDrops(left: string, s: string)
    requires OnlySlashes(left) && s != "" && s[0] != '/'
    ensures DropLeadingSlashes(left + s) == s
    decreases |left|
  {
    if left == "" {
      assert left + s == s;
    } else {
      assert left[0] in left && (left + s)[1..] == left[1..] + s;
      assert forall c | c in left[1..] :: c in left;
      TrimLeadingDrops(left[1..], s);
    }
  }

  lemma {:induction false} TrimTrailingDrops(s: string, right: string)
    requires OnlySlashes(right) && s != "" && s[|s| - 1] != '/'
    ensures DropTrailingSlashes(s + right) == s
    decreases |right|
  {
    if right == "" {
      assert s + right == s;
    } else {
      var shorter := right[..|right| - 1];
      assert right[|right| - 1] in right && (s + right)[..|s + right| - 1] == s + shorter;
      assert forall c | c in shorter :: c in right;
      TrimTrailingDrops(s, shorter);
    }
  }

  /** Slashes around a plain text drop out of the name. */
  lemma OuterSlashesDropOut(left: string, core: string, right: string, nanos: int)
    requires OnlySlashes(left) && OnlySlashes(right) && core != "" && Clean(core)
    ensures Segment(left + core + right, nanos) == core
  {
    var source := left + core + right;
    assert core[0] in core && core[|core| - 1] in core;
    assert source == left + (core + right) && source[|left|] == core[0];
    TrimLeadingDrops(left, core + right);
    TrimTrailingDrops(core, right);
    ReplaceKeepsClean(core);
    assert source[|left|] in source;
  }

  /** Each separator between two plain texts reads as one dash: a scheme separator, a slash, a NUL. */
  lemma InnerSeparatorsReadAsDashes(a: string, b: string, nanos: int)
    requires a != "" && b != "" && Clean(a) && Clean(b) && a[|a| - 1] != ':'
    ensures Segment(a + ("/" + b), nanos) == a + ("-" + b)
    ensures Segment(a + ("://" + b), nanos) == a + ("-" + b)
    ensures Segment(a + ([NUL] + b), nanos) == a + ("-" + b)
  {
    ReplaceSeparatorHead(b);
    ReplaceKeepsClean(b);
    SeparatedSegment(a, "/" + b, nanos);
    SeparatedSegment(a, "://" + b, nanos);
    SeparatedSegment(a, [NUL] + b, nanos);
  }

  /** Distinct idempotency keys can name the same envelope: a slash reads like a dash. */
  lemma DistinctKeysCanCollide(nanos: int)
    ensures "a/b" != "a-b"
    ensures EnvelopeRef("outbox", "a/b", "s", "r", "", nanos) == EnvelopeRef("outbox", "a-b", "t", "q", "", nanos)
  {
    ReplaceAfterPlainPrefix("a", "/b");
    ReplaceAfterPlainPrefix("a", "-b");
    TrimKeepsBare("a/b");
    TrimKeepsBare("a-b");
    assert "a/b" == "a" + "/b" && "a-b" == "a" + "-b";
    ReplaceSeparatorHead("b");
    ReplaceKeepsClean("b");
    ReplaceKeepsClean("-b");
    assert "/" + "b" == "/b" && "-" + "b" == "-b";
  }

  // ---------- associated data ----------

  /** Four fields joined by NUL bytes, as both custody formats bind their refs. */
  function Join4(a: string, b: string, c: string, d: string): string {
    a + [NUL] + b + [NUL] + c + [NUL] + d
  }

  /** The join is injective as soon as the first three fields hold no NUL; the last one is free. */
  lemma Join4Injective(a: string, b: string, c: string, d: string, p: string, q: string, r: string, s: string)
    requires NUL !in a && NUL !in b && NUL !in c && NUL !in p && NUL !in q && NUL !in r
    requires Join4(a, b, c, d) == Join4(p, q, r, s)
    ensures a == p && b == q && c == r && d == s
  {
    var t, u := c + [NUL] + d, r + [NUL] + s;
    var v, w := b + [NUL] + t, q + [NUL] + u;
    assert Join4(a, b, c, d) == a + [NUL] + v && Join4(p, q, r, s) == p + [NUL] + w;
    JoinInjective(NUL, a, v, p, w);
    JoinInjective(NUL, b, t, q, u);
    JoinInjective(NUL, c, d, r, s);
  }

  /** A text splits around any NUL it holds. */
  lemma SplitAtNul(s: string) returns (left: string, right: string)
    requires NUL in s
    ensures s == left + [NUL] + right && left != s
  {
    var i :| 0 <= i < |s| && s[i] == NUL;
    left, right := s[..i], s[i + 1..];
  }

  predicate NulFree4(a: string, b: string, c: string, d: string) {
    NUL !in a && NUL !in b && NUL !in c && NUL !in d
  }

  /** A NUL inside a field lets another quadruple join to the same bytes. */
  lemma NulMakesJoinAmbiguous(a: string, b: string, c: string, d: string)
    returns (p: string, q: string, r: string, s: string)
    requires !NulFree4(a, b, c, d)
    ensures Join4(p, q, r, s) == Join4(a, b, c, d) && (p, q, r, s) != (a, b, c, d)
  {
    if NUL in a {
      var left, right := SplitAtNul(a);
      p, q, r, s := left, right + [NUL] + b, c, d;
    } else if NUL in b {
      var left, right := SplitAtNul(b);
      p, q, r, s := a, left, right + [NUL] + c, d;
    } else if NUL in c {
      var left, right := SplitAtNul(c);
      p, q, r, s := a, b, left, right + [NUL] + d;
    } else {
      var left, right := SplitAtNul(d);
      p, q, r, s := a + [NUL] + b, c, left, right;
      assert NUL in p;
    }
  }

  /** Fields without NUL are the only ones with their join. */
  lemma NulFreeJoinIsUnique(a: string, b: string, c: string, d: string, p: string, q: string, r: string, s: string)
    requires NulFree4(a, b, c, d) && Join4(a, b, c, d) == Join4(p, q, r, s)
    ensures (a, b, c, d) == (p, q, r, s)
  {
    assert multiset(Join4(a, b, c, d))[NUL] == 3;
    assert multiset(Join4(p, q, r, s))[NUL]
        == 3 + multiset(p)[NUL] + multiset(q)[NUL] + multiset(r)[NUL] + multiset(s)[NUL];
    assert NUL !in multiset(p) && NUL !in multiset(q) && NUL !in multiset(r);
    Join4Injective(a, b, c, d, p, q, r, s);
  }

  /** The join names its four fields exactly when none of them holds a NUL. */
  lemma JoinNamesFieldsIffNulFree(a: string, b: string, c: string, d: string)
    ensures NulFree4(a, b, c, d)
       <==> forall p, q, r, s | Join4(p, q, r, s) == Join4(a, b, c, d) :: (p, q, r, s) == (a, b, c, d)
  {
    if NulFree4(a, b, c, d) {
      forall p, q, r, s | Join4(p, q, r, s) == Join4(a, b, c, d)
        ensures (p, q, r, s) == (a, b, c, d)
      {
        NulFreeJoinIsUnique(a, b, c, d, p, q, r, s);
      }
    } else {
      var p, q, r, s := NulMakesJoinAmbiguous(a, b, c, d);
    }
  }
}
