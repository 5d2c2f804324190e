/** Which results are retried, and how long the peer asks the caller to wait. */
module RetryClassifier {
  import opened Common
  import opened CallContract

  datatype RetryDecision = Success | Terminal | Retry | RetryRateLimit

  datatype ResourceExhaustedContext = HardQuota | RateLimit | Capacity

  // ---------------------------------------------------------------- text searches of the standard library

  predicate OccursAt(text: string, pattern: string, i: nat) {
    i + |pattern| <= |text| && text[i..i + |pattern|] == pattern
  }

  /** Where `pattern` first occurs in `text`. */
  function Find(text: string, pattern: string): (at: Option<nat>)
    ensures at.Some? ==>
              OccursAt(text, pattern, at.value) && forall i: nat :: i < at.value ==> !OccursAt(text, pattern, i)
    ensures at.None? ==> forall i: nat :: !OccursAt(text, pattern, i)
  {
    if OccursAt(text, pattern, 0) then Some(0)
    else if text == "" then None
    else
      var later := Find(text[1..], pattern);
      assert forall i: nat :: i > 0 ==> OccursAt(text, pattern, i) == OccursAt(text[1..], pattern, i - 1) by {
        forall i: nat | i > 0 ensures OccursAt(text, pattern, i) == OccursAt(text[1..], pattern, i - 1) {
          if i + |pattern| <= |text| {
            assert text[1..][i - 1..i - 1 + |pattern|] == text[i..i + |pattern|];
          }
        }
      }
      if later.None? then None else Some(later.value + 1)
  }

  predicate Contains(text: string, pattern: string) { Find(text, pattern).Some? }

  function Lowercase(text: string): string {
    seq(|text|, i requires 0 <= i < |text| =>
      if 'A' <= text[i] <= 'Z' then (text[i] as int - 'A' as int + 'a' as int) as char else text[i])
  }

  predicate IsDigit(c: char) { '0' <= c <= '9' }

  /** The value of a text of decimal digits. */
  function Digits(text: string): nat
    requires forall c :: c in text ==> IsDigit(c)
  {
    if text == "" then 0 else
    assert IsDigit(text[|text| - 1]);
    Digits(text[..|text| - 1]) * 10 + (text[|text| - 1] as int - '0' as int)
  }

  /** `parse::<u64>`: decimal digits after an optional plus sign, at least one, with a value that fits. */
  function ParseU64(text: string): Option<nat> {
    var digits := if text != "" && text[0] == '+' then text[1..] else text;
    if digits != "" && (forall c | c in digits :: IsDigit(c)) && Digits(digits) < U64_LIMIT
    then Some(Digits(digits)) else None
  }

  function Decimal(n: nat): string {
    (if n < 10 then "" else Decimal(n / 10)) + [(n % 10 + '0' as int) as char]
  }

  /** The characters with the Unicode property White_Space. */
  predicate IsSpace(c: char) {
    var u := c as int;
    || 0x9 <= u <= 0xd || u == 0x20 || u == 0x85 || u == 0xa0 || u == 0x1680 || 0x2000 <= u <= 0x200a
    || u == 0x2028 || u == 0x2029 || u == 0x202f || u == 0x205f || u == 0x3000
  }

  function TrimStart(text: string): (t: string)
    ensures |t| <= |text|
    ensures t == "" || !IsSpace(t[0])
  {
    if text != "" && IsSpace(text[0]) then TrimStart(text[1..]) else text
  }

  function TrimEnd(text: string): (t: string)
    ensures t <= text
    ensures t == "" || !IsSpace(t[|t| - 1])
  {
    if text != "" && IsSpace(text[|text| - 1]) then TrimEnd(text[..|text| - 1]) else text
  }

  function Trim(text: string): string { TrimEnd(TrimStart(text)) }

  // ---------------------------------------------------------------- the classifier

  function ClassifyResourceExhausted(message: string): ResourceExhaustedContext {
    var text := Lowercase(message);
    if Contains(text, "quota") || Contains(text, "billing") || Contains(text, "plan limit") then HardQuota
    else if Contains(text, "rate") || Contains(text, "too many requests") || Contains(text, "throttl") then RateLimit
    else Capacity
  }

  function ClassifyStatus(code: StatusCode, message: string): RetryDecision {
    match code
    case Unavailable => Retry
    case ResourceExhausted =>
      (match ClassifyResourceExhausted(message)
       case HardQuota => Terminal
       case RateLimit => RetryRateLimit
       case Capacity => Retry)
    case _ => Terminal
  }

  function Classify<R>(result: CallResult<R>): RetryDecision {
    match result
    case Ok(_) => Success
    case Err(Status(code, message, _)) => ClassifyStatus(code, message)
    case Err(Transport(code)) => if code == Unavailable || code == Unknown then Retry else Terminal
    case Err(_) => Terminal
  }

  // ---------------------------------------------------------------- the wait the peer asks for

  const TAG: string := "[retry-after="

  function ParseRetryAfterHint(message: string): Option<nat> {
    var at := Find(message, TAG);
    if at.None? then None else
    var rest := message[at.value + |TAG|..];
    var end := Find(rest, "s");
    if end.None? then None else ParseU64(rest[..end.value])
  }

  const RETRY_AFTER_KEYS: seq<string> := ["retry-after", "x-ratelimit-reset-requests"]

  /** What the first value of the first of `keys` that has a readable one says. */
  function FromTrailers(trailers: Trailers, keys: seq<string>): Option<nat> {
    if keys == [] then None else
    var values := if keys[0] in trailers then trailers[keys[0]] else [];
    var parsed := if values == [] then None else ParseU64(Trim(values[0]));
    if parsed.Some? then parsed else FromTrailers(trailers, keys[1..])
  }

  /** The wait in whole seconds. */
  function ReadRetryAfter(error: CallError): Option<nat> {
    match error
    case Status(_, message, trailers) =>
      var fromTrailers := FromTrailers(trailers, RETRY_AFTER_KEYS);
      if fromTrailers.Some? then fromTrailers else ParseRetryAfterHint(message)
    case _ => None
  }

  // ---------------------------------------------------------------- what a hint is

  /** The grammar of a hint: a tag that nothing before it completes, a number with no `s`, an `s`, anything. */
  ghost predicate IsHint(message: string, prefix: string, number: string, suffix: string) {
    message == prefix + TAG + number + "s" + suffix && !Contains(prefix, TAG) && 's' !in number
  }

  lemma BracketOnlyOpensTheTag(k: nat)
    requires 0 < k < |TAG|
    ensures TAG[0] == '[' && TAG[k] != '['
  {
  }

  /** The tag begins with a bracket and holds no other, so an occurrence that begins in the text before the tag and
      runs into it would put a bracket where the tag has none. */
  lemma TagDoesNotStraddle(prefix: string, after: string)
    requires !Contains(prefix, TAG)
    ensures Find(prefix + TAG + after, TAG) == Some(|prefix|)
  {
    var text := prefix + TAG + after;
    assert text[|prefix|..|prefix| + |TAG|] == TAG;
    assert OccursAt(text, TAG, |prefix|);
    forall i: nat | i < |prefix| ensures !OccursAt(text, TAG, i) {
      if i + |TAG| <= |prefix| {
        assert prefix[i..i + |TAG|] == text[i..i + |TAG|];
        assert !OccursAt(prefix, TAG, i);
      } else {
        BracketOnlyOpensTheTag(|prefix| - i);
        assert text[i..i + |TAG|][|prefix| - i] == text[|prefix|] == '[';
      }
    }
  }

  lemma FirstS(number: string, suffix: string)
    requires 's' !in number
    ensures Find(number + "s" + suffix, "s") == Some(|number|)
  {
    var text := number + "s" + suffix;
    assert text[|number|..|number| + 1] == "s";
    assert OccursAt(text, "s", |number|);
    forall i: nat | i < |number| ensures !OccursAt(text, "s", i) {
      assert text[i..i + 1][0] == number[i];
    }
  }

  lemma HintParses(message: string, prefix: string, number: string, suffix: string)
    requires IsHint(message, prefix, number, suffix)
    ensures ParseRetryAfterHint(message) == ParseU64(number)
  {
    var after := number + "s" + suffix;
    assert message == prefix + TAG + after;
    TagDoesNotStraddle(prefix, after);
    assert message[|prefix| + |TAG|..] == after;
    FirstS(number, suffix);
    assert after[..|number|] == number;
  }

  /** What lies before the first occurrence holds none. */
  lemma NothingBefore(text: string, pattern: string)
    requires pattern != "" && Find(text, pattern).Some?
    ensures !Contains(text[..Find(text, pattern).value], pattern)
  {
    var at := Find(text, pattern).value;
    forall i: nat ensures !OccursAt(text[..at], pattern, i) {
      if i + |pattern| <= at {
        assert !OccursAt(text, pattern, i);
        assert text[..at][i..i + |pattern|] == text[i..i + |pattern|];
      }
    }
  }

  lemma NoSBefore(text: string)
    requires Find(text, "s").Some?
    ensures var end := Find(text, "s").value; 's' !in text[..end] && text == text[..end] + "s" + text[end + 1..]
  {
    var end := Find(text, "s").value;
    assert text[end..end + 1] == "s";
    forall i: nat | i < end ensures text[i] != 's' {
      assert !OccursAt(text, "s", i);
      assert text[i..i + 1] == [text[i]];
    }
  }

  lemma SplitAtOccurrence(text: string, pattern: string, at: nat)
    requires OccursAt(text, pattern, at)
    ensures text == text[..at] + pattern + text[at + |pattern|..]
  {
  }

  lemma Regroup(a: string, b: string, number: string, suffix: string)
    ensures a + b + (number + "s" + suffix) == a + b + number + "s" + suffix
  {
  }

  lemma ParsedIsHint(message: string)
    requires ParseRetryAfterHint(message).Some?
    ensures exists prefix, number, suffix ::
              IsHint(message, prefix, number, suffix) && ParseU64(number) == ParseRetryAfterHint(message)
  {
    var at := Find(message, TAG).value;
    var rest := message[at + |TAG|..];
    NothingBefore(message, TAG);
    NoSBefore(rest);
    var end := Find(rest, "s").value;
    var prefix, number, suffix := message[..at], rest[..end], rest[end + 1..];
    SplitAtOccurrence(message, TAG, at);
    Regroup(prefix, TAG, number, suffix);
    assert IsHint(message, prefix, number, suffix);
  }

  /** The parser returns a number exactly when the message is a hint with that number. */
  lemma HintIffGrammar(message: string, n: nat)
    ensures ParseRetryAfterHint(message) == Some(n) <==>
            exists prefix, number, suffix :: IsHint(message, prefix, number, suffix) && ParseU64(number) == Some(n)
  {
    if ParseRetryAfterHint(message) == Some(n) {
      ParsedIsHint(message);
    }
    if prefix, number, suffix :| IsHint(message, prefix, number, suffix) && ParseU64(number) == Some(n) {
      HintParses(message, prefix, number, suffix);
    }
  }

  lemma {:induction false} DecimalReads(n: nat)
    ensures Decimal(n) != "" && forall c :: c in Decimal(n) ==> IsDigit(c)
    ensures Digits(Decimal(n)) == n
  {
    if n >= 10 {
      DecimalReads(n / 10);
      assert Decimal(n)[..|Decimal(n)| - 1] == Decimal(n / 10);
    } else {
      assert Decimal(n) == [(n + '0' as int) as char];
      assert Decimal(n)[..0] == "";
    }
  }

  lemma DecimalParses(n: nat)
    ensures ParseU64(Decimal(n)) == if n < U64_LIMIT then Some(n) else None
    ensures Decimal(n) != "" && !IsSpace(Decimal(n)[0]) && !IsSpace(Decimal(n)[|Decimal(n)| - 1])
  {
    DecimalReads(n);
    hide Decimal, Digits;
    var text := Decimal(n);
    assert text[0] in text && text[|text| - 1] in text;
  }

  lemma {:induction false} ZerosDoNotCount(zeros: nat, digits: string)
    requires forall c :: c in digits ==> IsDigit(c)
    ensures var text := seq(zeros, _ => '0') + digits;
            (forall c :: c in text ==> IsDigit(c)) && Digits(text) == Digits(digits)
    decreases |digits|, zeros
  {
    var text := seq(zeros, _ => '0') + digits;
    if digits != "" {
      var init := digits[..|digits| - 1];
      ZerosDoNotCount(zeros, init);
      assert text[..|text| - 1] == seq(zeros, _ => '0') + init && text[|text| - 1] == digits[|digits| - 1];
    } else if zeros > 0 {
      ZerosDoNotCount(zeros - 1, "");
      assert text[..|text| - 1] == seq(zeros - 1, _ => '0') + "";
    }
  }

  /** A number may have a plus sign and leading zeros. */
  lemma NumbersAre(zeros: nat, n: nat)
    ensures var digits := seq(zeros, _ => '0') + Decimal(n);
            ParseU64(digits) == ParseU64("+" + digits) == if n < U64_LIMIT then Some(n) else None
  {
    DecimalReads(n);
    ZerosDoNotCount(zeros, Decimal(n));
    var digits := seq(zeros, _ => '0') + Decimal(n);
    assert digits[0] in digits && ("+" + digits)[1..] == digits;
    hide Digits, Decimal;
  }

  /** No digit at all is no number, nor is anything with another character in it. */
  lemma NoNumber(text: string, i: nat)
    requires text == "" || text == "+" || (i < |text| && !IsDigit(text[i]) && (i > 0 || text[0] != '+'))
    ensures ParseU64(text) == None
  {
    hide Digits;
    if i < |text| && i > 0 {
      assert text[1..][i - 1] == text[i];
    }
  }

  /** A wait written into a message is read back, whatever surrounds it, exactly when it fits in 64 bits. */
  lemma WrittenHintIsRead(prefix: string, n: nat, suffix: string)
    requires !Contains(prefix, TAG)
    ensures ParseRetryAfterHint(prefix + TAG + Decimal(n) + "s" + suffix) == if n < U64_LIMIT then Some(n) else None
  {
    DecimalReads(n);
    assert forall c :: c in Decimal(n) ==> c != 's';
    HintParses(prefix + TAG + Decimal(n) + "s" + suffix, prefix, Decimal(n), suffix);
    DecimalParses(n);
  }

  lemma {:induction false} TrimStartDrops(spaces: string, text: string)
    requires (forall c :: c in spaces ==> IsSpace(c)) && text != "" && !IsSpace(text[0])
    ensures TrimStart(spaces + text) == text
  {
    if spaces == "" {
      assert spaces + text == text;
    } else {
      assert spaces[0] in spaces && (spaces + text)[1..] == spaces[1..] + text;
      TrimStartDrops(spaces[1..], text);
    }
  }

  lemma {:induction false} TrimEndDrops(text: string, spaces: string)
    requires (forall c :: c in spaces ==> IsSpace(c)) && text != "" && !IsSpace(text[|text| - 1])
    ensures TrimEnd(text + spaces) == text
  {
    if spaces == "" {
      assert text + spaces == text;
    } else {
      var init, last := spaces[..|spaces| - 1], spaces[|spaces| - 1];
      assert last in spaces && (text + spaces)[..|text + spaces| - 1] == text + init;
      TrimEndDrops(text, init);
    }
  }

  lemma TrimDrops(before: string, text: string, after: string)
    requires (forall c :: c in before ==> IsSpace(c)) && (forall c :: c in after ==> IsSpace(c))
    requires text != "" && !IsSpace(text[0]) && !IsSpace(text[|text| - 1])
    ensures Trim(before + text + after) == text
  {
    hide IsSpace;
    assert before + text + after == before + (text + after) && (text + after)[0] == text[0];
    TrimStartDrops(before, text + after);
    TrimEndDrops(text, after);
  }

  /** A wait written into a trailer is read back, whatever white space is around it, exactly when it fits in 64 bits. */
  lemma WrittenTrailerIsRead(before: string, n: nat, after: string)
    requires (forall c :: c in before ==> IsSpace(c)) && (forall c :: c in after ==> IsSpace(c))
    ensures ParseU64(Trim(before + Decimal(n) + after)) == if n < U64_LIMIT then Some(n) else None
  {
    hide *;
    DecimalParses(n);
    TrimDrops(before, Decimal(n), after);
  }

  predicate FirstValueParses(trailers: Trailers, key: string) {
    key in trailers && trailers[key] != [] && ParseU64(Trim(trailers[key][0])).Some?
  }

  lemma FirstKeyWins(trailers: Trailers)
    ensures FromTrailers(trailers, RETRY_AFTER_KEYS) ==
            if FirstValueParses(trailers, "retry-after") then ParseU64(Trim(trailers["retry-after"][0]))
            else if FirstValueParses(trailers, "x-ratelimit-reset-requests")
            then ParseU64(Trim(trailers["x-ratelimit-reset-requests"][0]))
            else None
  {
    var second := ["x-ratelimit-reset-requests"];
    assert RETRY_AFTER_KEYS[0] == "retry-after" && RETRY_AFTER_KEYS[1..] == second;
    assert second[1..] == [];
    assert FromTrailers(trailers, second) ==
           if FirstValueParses(trailers, second[0]) then ParseU64(Trim(trailers[second[0]][0])) else None;
  }

  /** A trailer wins over the message, the first key over the second, and the message counts exactly when neither key's
      first value can be read. */
  lemma WrittenHintIsTheFallback(code: StatusCode, prefix: string, n: nat, suffix: string, trailers: Trailers)
    requires !Contains(prefix, TAG) && n < U64_LIMIT
    ensures var error := Status(code, prefix + TAG + Decimal(n) + "s" + suffix, trailers);
            ReadRetryAfter(error) ==
            if FirstValueParses(trailers, "retry-after") then ParseU64(Trim(trailers["retry-after"][0]))
            else if FirstValueParses(trailers, "x-ratelimit-reset-requests")
            then ParseU64(Trim(trailers["x-ratelimit-reset-requests"][0]))
            else Some(n)
  {
    WrittenHintIsRead(prefix, n, suffix);
    FirstKeyWins(trailers);
  }

  /** The words that mark a hard quota, and those that mark a rate limit. */
  const QUOTA_WORDS: set<string> := {"quota", "billing", "plan limit"}
  const RATE_WORDS: set<string> := {"rate", "too many requests", "throttl"}

  /** `a` is the letter `b` in whatever case, or the character `b`, which is no capital letter. */
  predicate SameButForCase(a: char, b: char) { a == b || ('a' <= b <= 'z' && a as int + 32 == b as int) }

  /** `found` is the word, in whatever case. */
  predicate IsWordInAnyCase(found: string, word: string) {
    |found| == |word| && forall i | 0 <= i < |word| :: SameButForCase(found[i], word[i])
  }

  /** The message has one of the words somewhere, in whatever case. */
  ghost predicate Mentions(message: string, words: set<string>) {
    exists prefix, found, suffix, word ::
      message == prefix + found + suffix && word in words && IsWordInAnyCase(found, word)
  }

  predicate NoCapitals(word: string) { forall c | c in word :: !('A' <= c <= 'Z') }

  lemma CaseIsLowercase(found: string, word: string)
    requires NoCapitals(word)
    ensures IsWordInAnyCase(found, word) <==> Lowercase(found) == word
  {
    assert forall i :: 0 <= i < |word| ==> word[i] in word;
    if Lowercase(found) == word {
      assert forall i :: 0 <= i < |word| ==> Lowercase(found)[i] == word[i];
    }
  }

  lemma WordsHaveNoCapitals(word: string)
    requires word in QUOTA_WORDS + RATE_WORDS
    ensures NoCapitals(word)
  {
  }

  lemma MentionIsContained(prefix: string, word: string, suffix: string)
    ensures Contains(Lowercase(prefix + word + suffix), Lowercase(word))
  {
    var text := Lowercase(prefix + word + suffix);
    assert text[|prefix|..|prefix| + |word|] == Lowercase(word);
    assert OccursAt(text, Lowercase(word), |prefix|);
  }

  lemma LowercaseOfPart(text: string, i: nat, j: nat)
    requires i <= j <= |text|
    ensures Lowercase(text)[i..j] == Lowercase(text[i..j])
  {
  }

  lemma ContainedIsMention(message: string, word: string)
    requires Contains(Lowercase(message), word)
    ensures exists prefix, found, suffix :: message == prefix + found + suffix && Lowercase(found) == word
  {
    var at := Find(Lowercase(message), word).value;
    var found := message[at..at + |word|];
    LowercaseOfPart(message, at, at + |word|);
    hide Lowercase;
    SplitAtOccurrence(message, found, at);
  }

  lemma MentionsIfContains(message: string, words: set<string>)
    requires forall word :: word in words ==> NoCapitals(word)
    ensures Mentions(message, words) <==> exists word :: word in words && Contains(Lowercase(message), word)
  {
    hide Contains, Lowercase, IsWordInAnyCase, NoCapitals;
    if prefix, found, suffix, word :|
        message == prefix + found + suffix && word in words && IsWordInAnyCase(found, word) {
      CaseIsLowercase(found, word);
      MentionIsContained(prefix, found, suffix);
    }
    if word :| word in words && Contains(Lowercase(message), word) {
      ContainedIsMention(message, word);
      var prefix, found, suffix :| message == prefix + found + suffix && Lowercase(found) == word;
      CaseIsLowercase(found, word);
    }
  }

  /** An exhausted peer is not asked again when its message speaks of a quota, whatever else it says; it is asked
      again on the rate-limit track when it speaks of a rate and of no quota, and on the standard track otherwise. */
  lemma MessageDecides<R>(message: string, trailers: Trailers)
    ensures var decision := Classify(CallResult<R>.Err(Status(ResourceExhausted, message, trailers)));
            && (decision == Terminal <==> Mentions(message, QUOTA_WORDS))
            && (decision == RetryRateLimit <==> Mentions(message, RATE_WORDS) && !Mentions(message, QUOTA_WORDS))
            && (decision == Retry <==> !Mentions(message, RATE_WORDS) && !Mentions(message, QUOTA_WORDS))
  {
    forall word | word in QUOTA_WORDS + RATE_WORDS ensures NoCapitals(word) {
      WordsHaveNoCapitals(word);
    }
    MentionsIfContains(message, QUOTA_WORDS);
    MentionsIfContains(message, RATE_WORDS);
    hide Contains, Lowercase, Mentions;
  }

  /** Only an error is ever retried. */
  lemma OnlyErrorsAreRetried<R>(result: CallResult<R>)
    ensures Classify(result) == Success <==> result.Ok?
    ensures Classify(result) in {Retry, RetryRateLimit} ==> result.Err?
  {
  }
}
