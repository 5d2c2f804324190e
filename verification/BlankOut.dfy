/**
 Blanking Rust text: comments, strings and character literals become spaces, so that a later search reads only code.
 `isAlnum` is the library's notion of a letter or digit.
 */
module BlankOut {
  import opened Common

  datatype Kind = Code | LineComment | BlockComment | RawString | QuotedString | CharLiteral

  predicate At2(text: string, i: nat, a: char, b: char) { i + 1 < |text| && text[i] == a && text[i + 1] == b }

  // ---------------------------------------------------------------- where things end

  function LineEnd(text: string, i: nat): (e: nat)
    requires i <= |text|
    ensures i <= e <= |text| && forall k :: i <= k < e ==> text[k] != '\n'
    ensures e < |text| ==> text[e] == '\n'
    decreases |text| - i
  {
    if i == |text| || text[i] == '\n' then i else LineEnd(text, i + 1)
  }

  /** The end of a block comment of which `depth` levels are open at `i`; comments nest. */
  function BlockEnd(text: string, i: nat, depth: int): (e: nat)
    requires i <= |text|
    ensures i <= e <= |text|
    decreases |text| - i
  {
    if i == |text| then i
    else if At2(text, i, '/', '*') then BlockEnd(text, i + 2, depth + 1)
    else if At2(text, i, '*', '/') then if depth - 1 == 0 then i + 2 else BlockEnd(text, i + 2, depth - 1)
    else BlockEnd(text, i + 1, depth)
  }

  function Hashes(text: string, i: nat): (h: nat)
    requires i <= |text|
    ensures i + h <= |text| && forall k :: i <= k < i + h ==> text[k] == '#'
    decreases |text| - i
  {
    if i == |text| || text[i] != '#' then 0 else 1 + Hashes(text, i + 1)
  }

  predicate RawOpens(text: string, i: nat) {
    i < |text| && text[i] == 'r' && var h := Hashes(text, i + 1); i + 1 + h < |text| && text[i + 1 + h] == '"'
  }

  /** A quote at `p` followed by `hashes` hash signs. */
  predicate ClosesAt(text: string, p: nat, hashes: nat) {
    p + 1 + hashes <= |text| && text[p] == '"' && forall k | p < k <= p + hashes :: text[k] == '#'
  }

  function RawEnd(text: string, p: nat, hashes: nat): (e: nat)
    requires p <= |text|
    ensures p <= e <= |text|
    decreases |text| - p
  {
    if p == |text| then p else if ClosesAt(text, p, hashes) then p + 1 + hashes else RawEnd(text, p + 1, hashes)
  }

  /** Where the closing quote of a string is, if its contents begin at `i`; the end of the text when there is none. */
  function QuoteAt(text: string, i: nat): (q: nat)
    requires i <= |text|
    ensures i <= q <= |text| && (q < |text| ==> text[q] == '"')
    decreases |text| - i
  {
    if i == |text| || text[i] == '"' then i
    else if text[i] == '\\' && i + 1 < |text| then QuoteAt(text, i + 2)
    else QuoteAt(text, i + 1)
  }

  function FirstApostrophe(text: string, i: nat): (q: Option<nat>)
    ensures q.Some? ==> i <= q.value < |text| && text[q.value] == '\''
    ensures q.Some? ==> forall k :: i <= k < q.value ==> text[k] != '\''
    ensures q.None? ==> forall k :: i <= k < |text| ==> text[k] != '\''
    decreases |text| - i
  {
    if i >= |text| then None else if text[i] == '\'' then Some(i) else FirstApostrophe(text, i + 1)
  }

  /** The end of the character literal at `i`, if there is one: a backslash, a character on the same line and anything
      up to the next apostrophe, or one character. */
  function CharEnd(text: string, i: nat): (e: Option<nat>)
    ensures e.Some? ==> i + 3 <= e.value <= |text|
  {
    if i >= |text| || text[i] != '\'' then None
    else if i + 1 < |text| && text[i + 1] == '\\' then
      if i + 2 < |text| && text[i + 2] != '\n' && FirstApostrophe(text, i + 3).Some?
      then Some(FirstApostrophe(text, i + 3).value + 1) else None
    else if i + 2 < |text| && text[i + 1] != '\'' && text[i + 2] == '\'' then Some(i + 3) else None
  }

  // ---------------------------------------------------------------- tokens

  predicate AfterWord(isAlnum: char -> bool, text: string, i: nat)
    requires i <= |text|
  {
    i > 0 && (isAlnum(text[i - 1]) || text[i - 1] == '_')
  }

  function KindAt(isAlnum: char -> bool, text: string, i: nat): Kind
    requires i < |text|
  {
    if At2(text, i, '/', '/') then LineComment
    else if At2(text, i, '/', '*') then BlockComment
    else if RawOpens(text, i) && !AfterWord(isAlnum, text, i) then RawString
    else if text[i] == '"' then QuotedString
    else if CharEnd(text, i).Some? then CharLiteral
    else Code
  }

  /** Where the token at `i` ends: one past the text for a string that is not closed. */
  function TokenEnd(isAlnum: char -> bool, text: string, i: nat): (e: nat)
    requires i < |text|
    ensures i < e <= |text| + 1
    ensures KindAt(isAlnum, text, i) == Code ==> e == i + 1
    ensures e == |text| + 1 ==> KindAt(isAlnum, text, i) == QuotedString
    ensures KindAt(isAlnum, text, i) != Code ==> e >= i + 2
  {
    match KindAt(isAlnum, text, i)
    case LineComment => LineEnd(text, i + 2)
    case BlockComment => BlockEnd(text, i + 2, 1)
    case RawString => RawEnd(text, i + 2 + Hashes(text, i + 1), Hashes(text, i + 1))
    case QuotedString => QuoteAt(text, i + 1) + 1
    case CharLiteral => CharEnd(text, i).value
    case Code => i + 1
  }

  /** Spaces, with the newlines kept. */
  function Blanks(s: string): string {
    seq(|s|, k requires 0 <= k < |s| => if s[k] == '\n' then '\n' else ' ')
  }

  function Spaces(n: nat): string { seq(n, _ => ' ') }

  /** What the token at `i` becomes. */
  function TokenOut(isAlnum: char -> bool, text: string, i: nat): string
    requires i < |text|
  {
    var e := TokenEnd(isAlnum, text, i);
    match KindAt(isAlnum, text, i)
    case Code => [text[i]]
    case CharLiteral => Spaces(e - i)
    case QuotedString => if e <= |text| then Blanks(text[i..e]) else Blanks(text[i..]) + " "
    case _ => Blanks(text[i..e])
  }

  function BlankFrom(isAlnum: char -> bool, text: string, i: nat): string
    decreases |text| - i
  {
    if i >= |text| then "" else TokenOut(isAlnum, text, i) + BlankFrom(isAlnum, text, TokenEnd(isAlnum, text, i))
  }

  // ---------------------------------------------------------------- the scanner

  lemma BlanksMore(out: string, text: string, a: nat, b: nat)
    requires a <= b <= |text|
    ensures b < |text| ==>
              out + Blanks(text[a..b + 1]) == (out + Blanks(text[a..b])) + [if text[b] == '\n' then '\n' else ' ']
  {
  }

  lemma BlanksTwoMore(out: string, text: string, a: nat, b: nat)
    requires a <= b && b + 1 < |text|
    ensures out + Blanks(text[a..b + 2]) ==
            (out + Blanks(text[a..b])) + [if text[b] == '\n' then '\n' else ' ']
              + [if text[b + 1] == '\n' then '\n' else ' ']
  {
  }

  /** One past the line comment at `i`, and the spaces for it. */
  method TakeLine(text: string, i: nat, out: string) returns (j: nat, r: string)
    requires At2(text, i, '/', '/')
    ensures j == LineEnd(text, i + 2) && r == out + Blanks(text[i..j])
  {
    assert Blanks(text[i..i]) == "";
    hide Blanks;
    j, r := i, out;
    while j < |text| && text[j] != '\n'
      invariant i <= j <= |text| && LineEnd(text, j) == LineEnd(text, i)
      invariant r == out + Blanks(text[i..j])
    {
      BlanksMore(out, text, i, j);
      r := r + " ";
      j := j + 1;
    }
    assert LineEnd(text, i) == LineEnd(text, i + 1) == LineEnd(text, i + 2);
  }

  lemma BlockStep(text: string, i: nat, depth: int)
    requires i <= |text|
    ensures BlockEnd(text, i, depth) ==
            if i == |text| then i
            else if At2(text, i, '/', '*') then BlockEnd(text, i + 2, depth + 1)
            else if At2(text, i, '*', '/') then if depth - 1 == 0 then i + 2 else BlockEnd(text, i + 2, depth - 1)
            else BlockEnd(text, i + 1, depth)
  {
  }

  /** One past the block comment at `i`, and the blanks for it. */
  method TakeBlock(text: string, i: nat, out: string) returns (j: nat, r: string)
    requires At2(text, i, '/', '*')
    ensures j == BlockEnd(text, i + 2, 1) && r == out + Blanks(text[i..j])
  {
    var depth := 0;
    assert Blanks(text[i..i]) == "";
    hide Blanks, BlockEnd;
    BlockStep(text, i, 0);
    j, r := i, out;
    while j < |text|
      invariant i <= j <= |text| && BlockEnd(text, j, depth) == BlockEnd(text, i, 0)
      invariant r == out + Blanks(text[i..j])
    {
      BlockStep(text, j, depth);
      if At2(text, j, '/', '*') {
        depth := depth + 1;
        BlanksTwoMore(out, text, i, j);
        r := r + " " + " ";
        j := j + 2;
      } else if At2(text, j, '*', '/') {
        depth := depth - 1;
        BlanksTwoMore(out, text, i, j);
        r := r + " " + " ";
        j := j + 2;
        if depth == 0 {
          return;
        }
      } else {
        BlanksMore(out, text, i, j);
        r := r + [if text[j] == '\n' then '\n' else ' '];
        j := j + 1;
      }
    }
    BlockStep(text, j, depth);
  }

  lemma QuoteStep(text: string, i: nat)
    requires i <= |text|
    ensures QuoteAt(text, i) == if i == |text| || text[i] == '"' then i
                                else if text[i] == '\\' && i + 1 < |text| then QuoteAt(text, i + 2)
                                else QuoteAt(text, i + 1)
  {
  }

  /** One past the string whose opening quote is at `i`; one past the text, with one space too many, if it is not
      closed. */
  method TakeString(text: string, i: nat, out: string) returns (j: nat, r: string)
    requires i < |text| && text[i] == '"'
    ensures j == QuoteAt(text, i + 1) + 1
    ensures r == out + if j <= |text| then Blanks(text[i..j]) else Blanks(text[i..]) + " "
  {
    BlanksMore(out, text, i, i);
    assert Blanks(text[i..i]) == "";
    hide Blanks, QuoteAt;
    j, r := i + 1, out + [' '];
    while j < |text| && text[j] != '"'
      invariant i < j <= |text| && QuoteAt(text, j) == QuoteAt(text, i + 1)
      invariant r == out + Blanks(text[i..j])
    {
      QuoteStep(text, j);
      if text[j] == '\\' && j + 1 < |text| {
        BlanksTwoMore(out, text, i, j);
        r := r + [' '] + [if text[j + 1] == '\n' then '\n' else ' '];
        j := j + 2;
      } else {
        BlanksMore(out, text, i, j);
        r := r + [if text[j] == '\n' then '\n' else ' '];
        j := j + 1;
      }
    }
    QuoteStep(text, j);
    if j < |text| {
      BlanksMore(out, text, i, j);
    } else {
      assert text[i..j] == text[i..];
      assert " " == [' '];
    }
    r := r + [' '];
    j := j + 1;
  }

  /** The token at `i`: one past it, and what it becomes. */
  method TakeToken(isAlnum: char -> bool, text: string, i: nat, out: string) returns (j: nat, r: string)
    requires i < |text|
    ensures j == TokenEnd(isAlnum, text, i) && r == out + TokenOut(isAlnum, text, i)
  {
    hide Blanks, LineEnd, BlockEnd, Hashes, RawEnd, QuoteAt, FirstApostrophe;
    if At2(text, i, '/', '/') {
      j, r := TakeLine(text, i, out);
    } else if At2(text, i, '/', '*') {
      j, r := TakeBlock(text, i, out);
    } else if RawOpens(text, i) && !AfterWord(isAlnum, text, i) {
      var hashes := Hashes(text, i + 1);
      j := RawEnd(text, i + 2 + hashes, hashes);
      r := out + Blanks(text[i..j]);
    } else if text[i] == '"' {
      j, r := TakeString(text, i, out);
    } else if CharEnd(text, i).Some? {
      j := CharEnd(text, i).value;
      r := out + Spaces(j - i);
    } else {
      j, r := i + 1, out + [text[i]];
    }
  }

  /** `blank_out`. */
  method Blank(isAlnum: char -> bool, text: string) returns (out: string)
    ensures out == BlankFrom(isAlnum, text, 0)
  {
    hide KindAt, TokenOut, TokenEnd;
    out := "";
    var i := 0;
    while i < |text|
      invariant 0 <= i <= |text| + 1
      invariant out + BlankFrom(isAlnum, text, i) == BlankFrom(isAlnum, text, 0)
      decreases |text| + 1 - i
    {
      ghost var token, rest := TokenOut(isAlnum, text, i), BlankFrom(isAlnum, text, TokenEnd(isAlnum, text, i));
      assert out + (token + rest) == (out + token) + rest;
      i, out := TakeToken(isAlnum, text, i, out);
    }
    assert out + "" == out;
  }

  // ---------------------------------------------------------------- what the ends mean

  /** What may be inside a block comment: characters, and block comments, to any depth. */
  datatype Comment = End | Char(next: Comment) | Inner(body: Comment, next: Comment)

  /** Where that ends if the text from `i` on begins with it, each comment in it opened and closed. */
  function Passes(text: string, i: nat, comment: Comment): (j: Option<nat>)
    ensures j.Some? ==> i <= j.value <= |text|
    decreases comment
  {
    match comment
    case End => if i <= |text| then Some(i) else None
    case Char(next) =>
      if i < |text| && !At2(text, i, '/', '*') && !At2(text, i, '*', '/') then Passes(text, i + 1, next) else None
    case Inner(body, next) =>
      if !At2(text, i, '/', '*') then None else
      var close := Passes(text, i + 2, body);
      if close.Some? && At2(text, close.value, '*', '/') then Passes(text, close.value + 2, next) else None
  }

  lemma PassesEnd(text: string, i: nat)
    requires i <= |text|
    ensures Passes(text, i, End) == Some(i)
  {
  }

  lemma PassesChar(text: string, i: nat, next: Comment)
    ensures Passes(text, i, Char(next)) ==
            if i < |text| && !At2(text, i, '/', '*') && !At2(text, i, '*', '/') then Passes(text, i + 1, next) else None
  {
  }

  lemma PassesInner(text: string, i: nat, body: Comment, next: Comment)
    ensures var close := Passes(text, i + 2, body);
            Passes(text, i, Inner(body, next)) ==
            if At2(text, i, '/', '*') && close.Some? && At2(text, close.value, '*', '/')
            then Passes(text, close.value + 2, next) else None
  {
    hide At2;
  }

  lemma ClosesOneLevel(text: string, close: nat, depth: int)
    requires depth >= 1 && At2(text, close, '*', '/')
    ensures BlockEnd(text, close, depth + 1) == BlockEnd(text, close + 2, depth)
  {
    BlockStep(text, close, depth + 1);
    hide BlockEnd;
  }

  lemma {:induction false} NestedIsPassed(text: string, i: nat, comment: Comment, depth: int)
    requires i <= |text| && Passes(text, i, comment).Some? && depth >= 1
    ensures BlockEnd(text, i, depth) == BlockEnd(text, Passes(text, i, comment).value, depth)
    decreases comment
  {
    BlockStep(text, i, depth);
    PassesEnd(text, i);
    hide Passes, BlockEnd, At2;
    match comment
    case End =>
    case Char(next) =>
      PassesChar(text, i, next);
      NestedIsPassed(text, i + 1, next, depth);
    case Inner(body, next) =>
      PassesInner(text, i, body, next);
      var close := Passes(text, i + 2, body).value;
      NestedIsPassed(text, i + 2, body, depth + 1);
      ClosesOneLevel(text, close, depth);
      NestedIsPassed(text, close + 2, next, depth);
  }

  lemma BlockToken(isAlnum: char -> bool, text: string, i: nat)
    requires At2(text, i, '/', '*')
    ensures KindAt(isAlnum, text, i) == BlockComment && TokenEnd(isAlnum, text, i) == BlockEnd(text, i + 2, 1)
  {
    hide BlockEnd, RawOpens, CharEnd;
  }

  /** A block comment ends where it is closed, past every comment inside it. */
  lemma BlockCommentEnds(isAlnum: char -> bool, text: string, i: nat, comment: Comment)
    requires At2(text, i, '/', '*') && Passes(text, i + 2, comment).Some?
    requires At2(text, Passes(text, i + 2, comment).value, '*', '/')
    ensures KindAt(isAlnum, text, i) == BlockComment
    ensures TokenEnd(isAlnum, text, i) == Passes(text, i + 2, comment).value + 2
  {
    BlockToken(isAlnum, text, i);
    hide BlockEnd, Passes, KindAt, TokenEnd;
    NestedIsPassed(text, i + 2, comment, 1);
    BlockStep(text, Passes(text, i + 2, comment).value, 1);
  }

  /** From `i` on, the innermost open comment is closed past this, and the end is then that of the rest. */
  ghost predicate ClosesAfter(text: string, i: nat, depth: int, comment: Comment)
    requires i <= |text|
  {
    var close := Passes(text, i, comment);
    && close.Some? && At2(text, close.value, '*', '/')
    && BlockEnd(text, i, depth) == if depth == 1 then close.value + 2 else BlockEnd(text, close.value + 2, depth - 1)
  }

  lemma ClosesAfterInner(text: string, i: nat, depth: int, body: Comment, next: Comment)
    requires i <= |text| && depth >= 1 && At2(text, i, '/', '*') && ClosesAfter(text, i + 2, depth + 1, body)
    requires ClosesAfter(text, Passes(text, i + 2, body).value + 2, depth, next)
    ensures ClosesAfter(text, i, depth, Inner(body, next))
  {
    PassesInner(text, i, body, next);
    BlockStep(text, i, depth);
    hide Passes, BlockEnd, At2;
  }

  lemma ClosesAfterChar(text: string, i: nat, depth: int, next: Comment)
    requires i < |text| && depth >= 1 && !At2(text, i, '/', '*') && !At2(text, i, '*', '/')
    requires ClosesAfter(text, i + 1, depth, next)
    ensures ClosesAfter(text, i, depth, Char(next))
  {
    PassesChar(text, i, next);
    BlockStep(text, i, depth);
    hide Passes, BlockEnd, At2;
  }

  lemma ClosesNow(text: string, i: nat, depth: int)
    requires depth >= 1 && At2(text, i, '*', '/')
    ensures ClosesAfter(text, i, depth, End)
  {
    BlockStep(text, i, depth);
    PassesEnd(text, i);
    hide Passes, BlockEnd;
  }

  lemma {:induction false} ClosesOrNot(text: string, i: nat, depth: int)
    requires i <= |text| && depth >= 1
    ensures BlockEnd(text, i, depth) == |text| || exists comment :: ClosesAfter(text, i, depth, comment)
    decreases |text| - i
  {
    BlockStep(text, i, depth);
    hide BlockEnd, Passes;
    if BlockEnd(text, i, depth) != |text| && i < |text| {
      if At2(text, i, '/', '*') {
        ClosesOrNot(text, i + 2, depth + 1);
        var body :| ClosesAfter(text, i + 2, depth + 1, body);
        var j := Passes(text, i + 2, body).value + 2;
        ClosesOrNot(text, j, depth);
        var next :| ClosesAfter(text, j, depth, next);
        ClosesAfterInner(text, i, depth, body, next);
      } else if At2(text, i, '*', '/') {
        ClosesNow(text, i, depth);
      } else {
        ClosesOrNot(text, i + 1, depth);
        var next :| ClosesAfter(text, i + 1, depth, next);
        ClosesAfterChar(text, i, depth, next);
      }
    }
  }

  /** The comment opened at `i` is closed after that, and ends at `e`. */
  predicate ClosedAt(text: string, i: nat, comment: Comment, e: nat) {
    var close := Passes(text, i + 2, comment);
    close.Some? && At2(text, close.value, '*', '/') && e == close.value + 2
  }

  /** And it ends nowhere else: a comment that does not go on to the end of the text ends where it is closed. */
  lemma OpenCommentTakesTheRest(isAlnum: char -> bool, text: string, i: nat)
    requires At2(text, i, '/', '*')
    ensures TokenEnd(isAlnum, text, i) == |text|
            || exists comment :: ClosedAt(text, i, comment, TokenEnd(isAlnum, text, i))
  {
    var inside := i + 2;
    ClosesOrNot(text, inside, 1);
    BlockToken(isAlnum, text, i);
    hide BlockEnd, Passes, KindAt, TokenEnd, At2;
    if comment :| ClosesAfter(text, inside, 1, comment) {
      assert ClosedAt(text, i, comment, TokenEnd(isAlnum, text, i));
    }
  }

  /** Two slashes begin a comment that ends with the line or with the text. */
  lemma LineCommentEnds(isAlnum: char -> bool, text: string, i: nat)
    requires i + 1 < |text| && text[i] == text[i + 1] == '/'
    ensures KindAt(isAlnum, text, i) == LineComment
    ensures var e := TokenEnd(isAlnum, text, i);
            i + 2 <= e <= |text| && '\n' !in text[i + 2..e] && (e < |text| ==> text[e] == '\n')
  {
  }

  lemma {:induction false} HashesAre(text: string, i: nat, hashes: nat)
    requires i + hashes < |text| && text[i + hashes] != '#' && forall k :: i <= k < i + hashes ==> text[k] == '#'
    ensures Hashes(text, i) == hashes
    decreases hashes
  {
    if hashes > 0 {
      HashesAre(text, i + 1, hashes - 1);
    }
  }

  /** An `r`, hash signs and a quote begin a raw string, unless a letter, a digit or an underscore comes before. */
  lemma RawStringBegins(isAlnum: char -> bool, text: string, i: nat, hashes: nat)
    requires i + 1 + hashes < |text| && text[i] == 'r' && text[i + 1 + hashes] == '"'
    requires forall k :: i < k <= i + hashes ==> text[k] == '#'
    requires i > 0 ==> !isAlnum(text[i - 1]) && text[i - 1] != '_'
    ensures KindAt(isAlnum, text, i) == RawString
    ensures TokenEnd(isAlnum, text, i) == RawEnd(text, i + 2 + hashes, hashes)
  {
    HashesAre(text, i + 1, hashes);
  }

  /** Any other quote begins a string that ends one past its closing quote. */
  lemma QuoteBegins(isAlnum: char -> bool, text: string, i: nat)
    requires i < |text| && text[i] == '"'
    ensures KindAt(isAlnum, text, i) == QuotedString && TokenEnd(isAlnum, text, i) == QuoteAt(text, i + 1) + 1
  {
  }

  /** A character literal from `i` to `e`: one character that is neither a backslash nor an apostrophe, or a
      backslash, a character on the same line, and anything but an apostrophe. */
  predicate IsCharLiteral(text: string, i: nat, e: nat) {
    && i + 3 <= e <= |text| && text[i] == text[e - 1] == '\''
    && if text[i + 1] == '\\' then e >= i + 4 && text[i + 2] != '\n' && forall k | i + 3 <= k < e - 1 :: text[k] != '\''
       else e == i + 3 && text[i + 1] != '\''
  }

  lemma {:induction false} ApostropheIsFirst(text: string, i: nat, q: nat)
    requires i <= q < |text| && text[q] == '\'' && forall k :: i <= k < q ==> text[k] != '\''
    ensures FirstApostrophe(text, i) == Some(q)
    decreases q - i
  {
    if i < q {
      ApostropheIsFirst(text, i + 1, q);
    }
  }

  lemma CharLiteralsAre(text: string, i: nat, e: nat)
    ensures CharEnd(text, i) == Some(e) <==> IsCharLiteral(text, i, e)
  {
    if IsCharLiteral(text, i, e) && text[i + 1] == '\\' {
      assert FirstApostrophe(text, i + 3) == Some((e - 1) as nat) by {
        ApostropheIsFirst(text, i + 3, e - 1);
      }
    }
  }

  /** An apostrophe that begins such a literal begins a token that ends with it. */
  lemma ApostropheBegins(isAlnum: char -> bool, text: string, i: nat, e: nat)
    requires IsCharLiteral(text, i, e)
    ensures KindAt(isAlnum, text, i) == CharLiteral && TokenEnd(isAlnum, text, i) == e
  {
    CharLiteralsAre(text, i, e);
  }

  /** After the character at `i` come that many hash signs and a quote. */
  predicate OpensWith(text: string, i: nat, hashes: nat) {
    i + 1 + hashes < |text| && text[i + 1 + hashes] == '"' && forall k | i < k <= i + hashes :: text[k] == '#'
  }

  /** Everything else is code: no slash with a slash or a star after it, no raw string, no quote and no literal. */
  lemma CodeBeginsNothing(isAlnum: char -> bool, text: string, i: nat)
    requires i < |text|
    ensures KindAt(isAlnum, text, i) == Code <==>
              && !(i + 1 < |text| && text[i] == '/' && text[i + 1] in {'/', '*'})
              && text[i] != '"'
              && !(text[i] == 'r' && (i > 0 ==> !isAlnum(text[i - 1]) && text[i - 1] != '_')
                   && exists hashes: nat :: OpensWith(text, i, hashes))
              && !(exists e: nat :: IsCharLiteral(text, i, e))
  {
    if RawOpens(text, i) {
      assert OpensWith(text, i, Hashes(text, i + 1));
    }
    if hashes: nat :| OpensWith(text, i, hashes) {
      HashesAre(text, i + 1, hashes);
    }
    if CharEnd(text, i).Some? {
      CharLiteralsAre(text, i, CharEnd(text, i).value);
    }
    if e: nat :| IsCharLiteral(text, i, e) {
      CharLiteralsAre(text, i, e);
    }
    hide Hashes, CharEnd, IsCharLiteral;
  }

  /** A raw string ends at the first quote with enough hash signs after it, or with the text. */
  lemma {:induction false} RawStringEnds(text: string, p: nat, hashes: nat)
    requires p <= |text|
    ensures var e := RawEnd(text, p, hashes);
            if forall q :: p <= q < |text| ==> !ClosesAt(text, q, hashes) then e == |text|
            else e >= p + 1 + hashes && ClosesAt(text, e - 1 - hashes, hashes)
                 && forall q :: p <= q < e - 1 - hashes ==> !ClosesAt(text, q, hashes)
    decreases |text| - p
  {
    if p < |text| && !ClosesAt(text, p, hashes) {
      RawStringEnds(text, p + 1, hashes);
    }
  }

  /** How many backslashes end at `i`, back to `from`. */
  function Backslashes(text: string, from: nat, i: nat): nat
    requires i <= |text|
    decreases i
  {
    if i <= from || text[i - 1] != '\\' then 0 else 1 + Backslashes(text, from, i - 1)
  }

  /** A string ends at its first quote after an even number of backslashes, or with the text. */
  lemma {:induction false} StringEnds(text: string, from: nat, i: nat)
    requires from <= i <= |text| && Backslashes(text, from, i) % 2 == 0
    ensures var q := QuoteAt(text, i);
            && (q < |text| ==> Backslashes(text, from, q) % 2 == 0)
            && forall k :: i <= k < q && text[k] == '"' ==> Backslashes(text, from, k) % 2 == 1
    decreases |text| - i
  {
    if i < |text| && text[i] == '\\' {
      assert Backslashes(text, from, i + 1) == 1 + Backslashes(text, from, i);
      if i + 1 < |text| {
        StringEnds(text, from, i + 2);
      }
    } else if i < |text| && text[i] != '"' {
      StringEnds(text, from, i + 1);
    }
  }

  // ---------------------------------------------------------------- what blanking keeps

  /** From `i` on, every string is closed and no character literal spans lines. */
  ghost predicate TameFrom(isAlnum: char -> bool, text: string, i: nat)
    decreases |text| - i
  {
    i < |text| ==>
      var e := TokenEnd(isAlnum, text, i);
      && e <= |text|
      && (KindAt(isAlnum, text, i) == CharLiteral ==> '\n' !in text[i..e])
      && TameFrom(isAlnum, text, e)
  }

  /** The text keeps its lines: no character more or less, and the newlines where they were. */
  ghost predicate KeepsLines(before: string, after: string) {
    |after| == |before| && forall k :: 0 <= k < |before| ==> (after[k] == '\n' <==> before[k] == '\n')
  }

  lemma TokenKeepsLines(isAlnum: char -> bool, text: string, i: nat)
    requires i < |text|
    ensures var e := TokenEnd(isAlnum, text, i);
            && |TokenOut(isAlnum, text, i)| == e - i
            && (e <= |text| ==>
                  (KeepsLines(text[i..e], TokenOut(isAlnum, text, i)) <==>
                     !(KindAt(isAlnum, text, i) == CharLiteral && '\n' in text[i..e])))
  {
  }

  lemma KeepsLinesFrom(text: string, i: nat, e: nat, a: string, b: string)
    requires i <= e <= |text| && |a| == e - i
    ensures KeepsLines(text[i..], a + b) <==> KeepsLines(text[i..e], a) && KeepsLines(text[e..], b)
  {
  }

  lemma LongerLosesLines(before: string, after: string)
    requires |after| > |before|
    ensures !KeepsLines(before, after)
  {
  }

  lemma UnfoldBlank(isAlnum: char -> bool, text: string, i: nat)
    requires i < |text|
    ensures BlankFrom(isAlnum, text, i)
            == TokenOut(isAlnum, text, i) + BlankFrom(isAlnum, text, TokenEnd(isAlnum, text, i))
    ensures TameFrom(isAlnum, text, i) <==>
            TokenEnd(isAlnum, text, i) <= |text|
            && !(KindAt(isAlnum, text, i) == CharLiteral && '\n' in text[i..TokenEnd(isAlnum, text, i)])
            && TameFrom(isAlnum, text, TokenEnd(isAlnum, text, i))
  {
  }

  /** Blanking keeps the lines of a text exactly when its strings are closed and its character literals stay on one
      line: an open string adds a character, and a literal that spans lines loses its newline. */
  lemma {:induction false} KeepsLinesIffTame(isAlnum: char -> bool, text: string, i: nat)
    requires i <= |text|
    ensures KeepsLines(text[i..], BlankFrom(isAlnum, text, i)) <==> TameFrom(isAlnum, text, i)
    decreases |text| - i
  {
    if i < |text| {
      hide *;
      var e := TokenEnd(isAlnum, text, i);
      TokenKeepsLines(isAlnum, text, i);
      UnfoldBlank(isAlnum, text, i);
      if e <= |text| {
        KeepsLinesIffTame(isAlnum, text, e);
        KeepsLinesFrom(text, i, e, TokenOut(isAlnum, text, i), BlankFrom(isAlnum, text, e));
      } else {
        LongerLosesLines(text[i..], BlankFrom(isAlnum, text, i));
      }
    }
  }

  /** A text that is an open string grows by a character, and one that is a newline in apostrophes loses its line. */
  lemma UntameTextsLoseLines(isAlnum: char -> bool)
    ensures BlankFrom(isAlnum, "\"", 0) == "  " && !KeepsLines("\"", BlankFrom(isAlnum, "\"", 0))
    ensures BlankFrom(isAlnum, "'\n'", 0) == "   " && !KeepsLines("'\n'", BlankFrom(isAlnum, "'\n'", 0))
  {
    assert QuoteAt("\"", 1) == 1 && KindAt(isAlnum, "\"", 0) == QuotedString;
    assert Blanks("\"") + " " == "  ";
    assert CharEnd("'\n'", 0) == Some(3) && KindAt(isAlnum, "'\n'", 0) == CharLiteral;
    assert Spaces(3) == "   ";
    assert "'\n'"[1] == '\n' && "   "[1] != '\n';
  }

  function CountNewlines(text: string): nat {
    if text == "" then 0 else CountNewlines(text[..|text| - 1]) + if text[|text| - 1] == '\n' then 1 else 0
  }

  /** The line a position is on. */
  function LineOf(text: string, position: nat): nat
    requires position <= |text|
  {
    CountNewlines(text[..position]) + 1
  }

  /** That is one more than the newlines before it. */
  lemma {:induction false} LineOfCounts(text: string, position: nat)
    requires position <= |text|
    ensures LineOf(text, position) == 1 + |set k: nat | k < position && text[k] == '\n'|
  {
    if position > 0 {
      LineOfCounts(text, position - 1);
      assert text[..position][..position - 1] == text[..position - 1];
      var before := set k: nat | k < position - 1 && text[k] == '\n';
      var newlines := set k: nat | k < position && text[k] == '\n';
      assert newlines == if text[position - 1] == '\n' then before + {position - 1} else before;
    }
  }

  /** Every position of a tame text is on the same line after blanking. */
  lemma {:induction false} SameLine(before: string, after: string, position: nat)
    requires KeepsLines(before, after) && position <= |before|
    ensures LineOf(after, position) == LineOf(before, position)
  {
    if position > 0 {
      SameLine(before, after, position - 1);
      assert before[..position][..position - 1] == before[..position - 1];
      assert after[..position][..position - 1] == after[..position - 1];
    }
  }

  // ---------------------------------------------------------------- blanking twice

  /** The scanner, from `i` on, comes to `k` and finds code there. */
  predicate CodeAt(isAlnum: char -> bool, text: string, i: nat, k: nat)
    decreases |text| - i
  {
    i < |text| && i <= k &&
    if i == k then KindAt(isAlnum, text, i) == Code else CodeAt(isAlnum, text, TokenEnd(isAlnum, text, i), k)
  }

  /** Inside a token, past its beginning, the scanner finds no code. */
  lemma NotInside(isAlnum: char -> bool, text: string, i: nat, k: nat)
    requires i < |text| && i < k < TokenEnd(isAlnum, text, i)
    ensures !CodeAt(isAlnum, text, i, k)
  {
  }

  lemma TokenBlanks(isAlnum: char -> bool, text: string, i: nat)
    requires i < |text| && TokenEnd(isAlnum, text, i) <= |text|
    ensures TokenOut(isAlnum, text, i) == match KindAt(isAlnum, text, i)
                                          case Code => [text[i]]
                                          case CharLiteral => Spaces(TokenEnd(isAlnum, text, i) - i)
                                          case _ => Blanks(text[i..TokenEnd(isAlnum, text, i)])
  {
  }

  lemma TokenCharacter(isAlnum: char -> bool, text: string, i: nat, k: nat)
    requires i < |text| && i <= k < |text| && k < TokenEnd(isAlnum, text, i) <= |text|
    requires KindAt(isAlnum, text, i) == CharLiteral ==> '\n' !in text[i..TokenEnd(isAlnum, text, i)]
    ensures |TokenOut(isAlnum, text, i)| == TokenEnd(isAlnum, text, i) - i
    ensures TokenOut(isAlnum, text, i)[k - i] ==
            if CodeAt(isAlnum, text, i, k) || text[k] == '\n' then text[k] else ' '
  {
    hide KindAt, TokenEnd, TokenOut;
    var e := TokenEnd(isAlnum, text, i);
    TokenBlanks(isAlnum, text, i);
    assert text[i..e][k - i] == text[k] && text[k] in text[i..e];
    if i < k {
      NotInside(isAlnum, text, i, k);
    }
  }

  /** Each character of the result is the one that was there, if it is code, and otherwise a space or the newline that
      was there. */
  lemma {:induction false} EachCharacter(isAlnum: char -> bool, text: string, i: nat, k: nat)
    requires TameFrom(isAlnum, text, i) && i <= k < |text|
    ensures |BlankFrom(isAlnum, text, i)| == |text| - i
    ensures BlankFrom(isAlnum, text, i)[k - i] ==
            if CodeAt(isAlnum, text, i, k) || text[k] == '\n' then text[k] else ' '
    decreases |text| - i
  {
    var e := TokenEnd(isAlnum, text, i);
    var first := TokenOut(isAlnum, text, i);
    TokenKeepsLines(isAlnum, text, i);
    KeepsLinesIffTame(isAlnum, text, e);
    if k >= e {
      EachCharacter(isAlnum, text, e, k);
      hide KindAt, TokenEnd, TokenOut;
      assert BlankFrom(isAlnum, text, i)[k - i] == BlankFrom(isAlnum, text, e)[k - e];
    } else {
      TokenCharacter(isAlnum, text, i, k);
      hide KindAt, TokenEnd, TokenOut;
      assert BlankFrom(isAlnum, text, i)[k - i] == first[k - i];
    }
  }

  lemma {:induction false} CodeIsCode(isAlnum: char -> bool, text: string, i: nat, k: nat)
    requires CodeAt(isAlnum, text, i, k)
    ensures k < |text| && KindAt(isAlnum, text, k) == Code
    decreases |text| - i
  {
    hide KindAt, TokenEnd;
    if i < k {
      CodeIsCode(isAlnum, text, TokenEnd(isAlnum, text, i), k);
    }
  }

  /** A character of the result that is not blank is code, unchanged. */
  lemma ShownIsCode(isAlnum: char -> bool, text: string, k: nat)
    requires TameFrom(isAlnum, text, 0) && k < |text|
    ensures var out := BlankFrom(isAlnum, text, 0);
            && |out| == |text| && (out[k] == '\n' <==> text[k] == '\n')
            && (out[k] != ' ' && out[k] != '\n' ==>
                  out[k] == text[k] && CodeAt(isAlnum, text, 0, k) && KindAt(isAlnum, text, k) == Code)
            && (out[k] == text[k] || (out[k] == ' ' && !CodeAt(isAlnum, text, 0, k)))
  {
    EachCharacter(isAlnum, text, 0, k);
    KeepsLinesIffTame(isAlnum, text, 0);
    assert text[0..] == text;
    if CodeAt(isAlnum, text, 0, k) {
      CodeIsCode(isAlnum, text, 0, k);
    }
  }

  /** Whatever is not code is at least two characters long: between two characters of code there is never just one
      that is not. */
  lemma {:induction false} NoLoneBlank(isAlnum: char -> bool, text: string, i: nat, k: nat)
    requires CodeAt(isAlnum, text, i, k) && k + 1 < |text| && !CodeAt(isAlnum, text, i, k + 1)
    ensures !CodeAt(isAlnum, text, i, k + 2)
    decreases |text| - i
  {
    if i < k {
      hide KindAt, TokenEnd;
      var e := TokenEnd(isAlnum, text, i);
      assert e <= k;
      NoLoneBlank(isAlnum, text, e, k);
    } else {
      assert TokenEnd(isAlnum, text, k) == k + 1;
      assert KindAt(isAlnum, text, k + 1) != Code;
      var e := TokenEnd(isAlnum, text, k + 1);
      assert e >= k + 3;
      NotInside(isAlnum, text, k + 1, k + 2);
    }
  }

  /** An apostrophe that is code in the text begins no character literal there, and none in the result. */
  lemma NoCharLiteral(isAlnum: char -> bool, text: string, k: nat)
    requires TameFrom(isAlnum, text, 0) && k < |text| == |BlankFrom(isAlnum, text, 0)|
    ensures CharEnd(BlankFrom(isAlnum, text, 0), k).None?
  {
    hide BlankFrom, TameFrom, TokenEnd, TokenOut, CodeAt, RawOpens;
    var out := BlankFrom(isAlnum, text, 0);
    ShownIsCode(isAlnum, text, k);
    if out[k] == '\'' && k + 2 < |text| {
      assert text[k] == '\'' && CharEnd(text, k).None?;
      ShownIsCode(isAlnum, text, k + 1);
      ShownIsCode(isAlnum, text, k + 2);
      if out[k + 1] == '\\' {
        var q := FirstApostrophe(out, k + 3);
        if q.Some? {
          ShownIsCode(isAlnum, text, q.value);
          assert text[q.value] == '\'';
        }
      } else if !CodeAt(isAlnum, text, 0, k + 1) {
        NoLoneBlank(isAlnum, text, 0, k);
      }
    }
  }

  lemma NoComment(isAlnum: char -> bool, text: string, k: nat)
    requires TameFrom(isAlnum, text, 0) && k < |text| == |BlankFrom(isAlnum, text, 0)|
    ensures !At2(BlankFrom(isAlnum, text, 0), k, '/', '/') && !At2(BlankFrom(isAlnum, text, 0), k, '/', '*')
  {
    hide BlankFrom, TameFrom, CodeAt, RawOpens, CharEnd;
    ShownIsCode(isAlnum, text, k);
    if k + 1 < |text| {
      ShownIsCode(isAlnum, text, k + 1);
    }
  }

  lemma NoQuoteShown(isAlnum: char -> bool, text: string)
    requires TameFrom(isAlnum, text, 0) && |text| == |BlankFrom(isAlnum, text, 0)|
    ensures forall m :: 0 <= m < |text| ==> BlankFrom(isAlnum, text, 0)[m] != '"'
  {
    forall m | 0 <= m < |text| ensures BlankFrom(isAlnum, text, 0)[m] != '"' {
      ShownIsCode(isAlnum, text, m);
    }
  }

  /** Nothing in the result begins a comment, a string or a character literal. */
  lemma NothingLeftToBlank(isAlnum: char -> bool, text: string, k: nat)
    requires TameFrom(isAlnum, text, 0) && k < |text| == |BlankFrom(isAlnum, text, 0)|
    ensures KindAt(isAlnum, BlankFrom(isAlnum, text, 0), k) == Code
  {
    var out := BlankFrom(isAlnum, text, 0);
    NoQuoteShown(isAlnum, text);
    NoComment(isAlnum, text, k);
    NoCharLiteral(isAlnum, text, k);
    hide BlankFrom, TameFrom, CharEnd;
    assert out[k] != '"' && !RawOpens(out, k);
  }

  lemma {:induction false} AllCodeStays(isAlnum: char -> bool, text: string, i: nat)
    requires i <= |text| && forall k :: 0 <= k < |text| ==> KindAt(isAlnum, text, k) == Code
    ensures BlankFrom(isAlnum, text, i) == text[i..]
    decreases |text| - i
  {
    hide KindAt;
    if i < |text| {
      AllCodeStays(isAlnum, text, i + 1);
      assert text[i..] == [text[i]] + text[i + 1..];
    }
  }

  /** Blanking a tame text again changes nothing. */
  lemma BlankIsIdempotent(isAlnum: char -> bool, text: string)
    requires TameFrom(isAlnum, text, 0)
    ensures BlankFrom(isAlnum, BlankFrom(isAlnum, text, 0), 0) == BlankFrom(isAlnum, text, 0)
  {
    var out := BlankFrom(isAlnum, text, 0);
    KeepsLinesIffTame(isAlnum, text, 0);
    assert text[0..] == text;
    forall k | 0 <= k < |out| ensures KindAt(isAlnum, out, k) == Code {
      NothingLeftToBlank(isAlnum, text, k);
    }
    AllCodeStays(isAlnum, out, 0);
    assert out[0..] == out;
  }
}
