/** English words for a salary amount: `numberToWords` and its nested `convertChunk` (script.js:132-179). */
module NumberWords {
  import opened Text

  const Units: seq<string> := ["", "one", "two", "three", "four", "five", "six", "seven", "eight", "nine"]
  const Teens: seq<string> := ["ten", "eleven", "twelve", "thirteen", "fourteen", "fifteen", "sixteen", "seventeen", "eighteen", "nineteen"]
  const Tens: seq<string> := ["", "", "twenty", "thirty", "forty", "fifty", "sixty", "seventy", "eighty", "ninety"]
  const Thousands: seq<string> := ["", "thousand", "million"]

  /** `thousands[i]`; past the end of the table the lookup is undefined, which the script treats like "". */
  function ScaleWord(i: nat): string {
    if i < |Thousands| then Thousands[i] else ""
  }

  /** The scale word a non-zero chunk at position `i` is followed by, if any. */
  function ScaleTokens(i: nat): seq<string> {
    if ScaleWord(i) == "" then [] else [ScaleWord(i)]
  }

  /** The one word (or none, for 0) that renders the last two digits of a chunk. */
  function RemainderTokens(r: nat): seq<string>
    requires r < 100
  {
    if r < 10 then (if r == 0 then [] else [Units[r]])
    else if r < 20 then [Teens[r - 10]]
    else [Tens[r / 10] + (if r % 10 != 0 then "-" + Units[r % 10] else "")]
  }

  /** The words of a chunk below 1000: "<unit> hundred" when the hundreds digit is set, then the remainder. */
  function ChunkTokens(c: nat): seq<string>
    requires c < 1000
  {
    (if c / 100 != 0 then [Units[c / 100], "hundred"] else []) + RemainderTokens(c % 100)
  }

  function ChunkText(c: nat): string
    requires c < 1000
  {
    JoinSpaces(ChunkTokens(c))
  }

  /** The words of `n`, whose least significant chunk sits at scale position `i`, most significant first;
      zero chunks contribute nothing. */
  function NumberTokens(n: nat, i: nat): seq<string>
    decreases n
  {
    if n == 0 then [] else NumberTokens(n / 1000, i + 1) + ChunkPart(n % 1000, i)
  }

  /** The words a chunk at scale position `i` contributes: its own words and the scale word, or nothing
      when the chunk is zero. */
  function ChunkPart(c: nat, i: nat): seq<string>
    requires c < 1000
  {
    if c != 0 then ChunkTokens(c) + ScaleTokens(i) else []
  }

  /** What `numberToWords(n)` returns. */
  function Words(n: nat): string {
    if n == 0 then "zero" else JoinSpaces(NumberTokens(n, 0))
  }

  // ---------------------------------------------------------------------------
  // The script's procedures

  /** `convertChunk`: appends the hundreds, then the remainder, and trims. */
  method ConvertChunk(chunk: nat) returns (r: string)
    requires chunk < 1000
    ensures r == ChunkText(chunk)
  {
    var result := "";
    var hundreds := chunk / 100;
    var remainder := chunk % 100;
    if hundreds != 0 {
      result := result + Units[hundreds] + " hundred ";
    }
    assert result == HundredsPiece(hundreds);
    ghost var head := result;
    if remainder < 10 {
      result := result + Units[remainder];
    } else if remainder < 20 {
      result := result + Teens[remainder - 10];
    } else {
      var ten := remainder / 10;
      var unit := remainder % 10;
      result := result + Tens[ten] + (if unit != 0 then "-" + Units[unit] else "");
    }
    assert result == head + RemainderPiece(remainder);
    ChunkPiecesTrim(chunk);
    r := Trim(result);
  }

  /** What the first append of `convertChunk` adds. */
  function HundredsPiece(h: nat): string
    requires h < 10
  {
    if h != 0 then Units[h] + " hundred " else ""
  }

  /** What the second append of `convertChunk` adds. */
  function RemainderPiece(r: nat): string
    requires r < 100
  {
    if r < 10 then Units[r]
    else if r < 20 then Teens[r - 10]
    else Tens[r / 10] + (if r % 10 != 0 then "-" + Units[r % 10] else "")
  }

  lemma RemainderPieceIsJoin(r: nat)
    requires r < 100
    ensures RemainderPiece(r) == JoinSpaces(RemainderTokens(r))
    ensures RemainderPiece(r) == "" <==> r == 0
    ensures r != 0 ==> IsWord(RemainderPiece(r))
  {
    TableWords();
    if r >= 20 { CompoundIsWord(r); }
  }

  /** Trimming the two appends gives the chunk's words joined by single spaces. */
  lemma ChunkPiecesTrim(c: nat)
    requires c < 1000
    ensures Trim(HundredsPiece(c / 100) + RemainderPiece(c % 100)) == ChunkText(c)
  {
    var h, r := c / 100, c % 100;
    ChunkTextShape(c, h, r);
    RemainderPieceIsJoin(r);
    var w := RemainderPiece(r);
    if h == 0 {
      assert HundredsPiece(h) + w == w;
      TrimUntouched(w);
    } else {
      var head := Units[h] + " hundred";
      HeadClean(h);
      if r == 0 {
        assert HundredsPiece(h) + w == head + [' '];
        TrimDropsTrailing(head, ' ');
        TrimUntouched(head);
      } else {
        TrimJoined(head, w);
      }
    }
  }

  /** The first append of `convertChunk` is the hundreds words and a trailing space. */
  lemma HeadClean(h: nat)
    requires 1 <= h < 10
    ensures var head := Units[h] + " hundred";
            HundredsPiece(h) == head + [' '] && !IsWhitespace(head[0]) && !IsWhitespace(head[|head| - 1])
  {
  }

  /** Two texts with no whitespace at their ends, joined by one space, are their own trim. */
  lemma TrimJoined(a: string, b: string)
    requires a != [] && !IsWhitespace(a[0]) && !IsWhitespace(a[|a| - 1])
    requires b != [] && !IsWhitespace(b[0]) && !IsWhitespace(b[|b| - 1])
    ensures Trim(a + [' '] + b) == a + " " + b
  {
  }

  /** `numberToWords`: peels off base-1000 chunks, least significant first, prepending each non-zero
      chunk's words and scale word. */
  method NumberToWords(num: nat) returns (words: string)
    ensures words == Words(num)
  {
    if num == 0 {
      return "zero";
    }
    words := "";
    var n := num;
    var chunkIndex := 0;
    ghost var done: seq<string> := [];
    while n > 0
      invariant NumberTokens(n, chunkIndex) + done == NumberTokens(num, 0)
      invariant AllWords(done)
      invariant words == JoinSpaces(done)
      decreases n
    {
      var chunk := n % 1000;
      ghost var part := ChunkPart(chunk, chunkIndex);
      if chunk > 0 {
        var chunkWords := ConvertChunk(chunk);
        if ScaleWord(chunkIndex) != "" {
          chunkWords := chunkWords + " " + ScaleWord(chunkIndex);
        }
        ChunkStep(chunk, chunkIndex, done, chunkWords, words);
        words := chunkWords + (if words != "" then " " + words else "");
      } else {
        assert part + done == done;
      }
      NumberTokensStep(n, chunkIndex, done);
      done := part + done;
      n := n / 1000;
      chunkIndex := chunkIndex + 1;
    }
    assert [] + done == done;
  }

  /** Peeling the least significant chunk off `n`. */
  lemma NumberTokensStep(n: nat, i: nat, done: seq<string>)
    requires n > 0
    ensures NumberTokens(n, i) + done == NumberTokens(n / 1000, i + 1) + (ChunkPart(n % 1000, i) + done)
  {
    var high, part := NumberTokens(n / 1000, i + 1), ChunkPart(n % 1000, i);
    assert NumberTokens(n, i) == high + part;
    AppendAssoc(high, part, done);
  }

  /** The words `numberToWords` holds after prepending a non-zero chunk. */
  lemma ChunkStep(c: nat, i: nat, done: seq<string>, chunkWords: string, words: string)
    requires 0 < c < 1000 && AllWords(done) && words == JoinSpaces(done)
    requires chunkWords == ChunkText(c) + (if ScaleWord(i) != "" then " " + ScaleWord(i) else "")
    ensures AllWords(ChunkPart(c, i) + done)
    ensures chunkWords + (if words != "" then " " + words else "") == JoinSpaces(ChunkPart(c, i) + done)
  {
    ChunkWords(c);
    PrependChunk(ChunkTokens(c), i, done);
  }

  /** One step of `numberToWords`: a chunk's words and scale word, joined in front of the words so far. */
  lemma PrependChunk(ct: seq<string>, i: nat, done: seq<string>)
    requires ct != [] && AllWords(ct) && AllWords(done)
    ensures AllWords(ct + ScaleTokens(i) + done)
    ensures JoinSpaces(ct + ScaleTokens(i) + done)
            == (JoinSpaces(ct) + (if ScaleWord(i) != "" then " " + ScaleWord(i) else ""))
               + (if JoinSpaces(done) != "" then " " + JoinSpaces(done) else "")
  {
    var part := ct + ScaleTokens(i);
    JoinScale(ct, i);
    JoinEmpty(done);
    if done != [] {
      JoinAppend(part, done);
    } else {
      assert part + done == part;
    }
  }

  /** A chunk's words followed by its scale word, if any. */
  lemma JoinScale(ct: seq<string>, i: nat)
    requires ct != [] && AllWords(ct)
    ensures ct + ScaleTokens(i) != [] && AllWords(ct + ScaleTokens(i))
    ensures JoinSpaces(ct + ScaleTokens(i))
            == JoinSpaces(ct) + (if ScaleWord(i) != "" then " " + ScaleWord(i) else "")
  {
    if ScaleWord(i) != "" {
      ScaleIsWord(i);
      JoinAppend(ct, [ScaleWord(i)]);
    } else {
      assert ct + ScaleTokens(i) == ct;
    }
  }

  // ---------------------------------------------------------------------------
  // Facts about the tables

  /** Every table entry the script can pick is a word other than "zero", "hundred" or a scale word,
      and none contains a hyphen. */
  predicate PlainWord(t: string) {
    IsWord(t) && '-' !in t && t != "zero" && t != "hundred" && t != "thousand" && t != "million"
  }

  lemma TableWords()
    ensures Units[0] == "" && Tens[0] == "" && Tens[1] == ""
    ensures forall k :: 1 <= k < 10 ==> PlainWord(Units[k])
    ensures forall k :: 0 <= k < 10 ==> PlainWord(Teens[k])
    ensures forall k :: 2 <= k < 10 ==> PlainWord(Tens[k])
  {
    UnitsPlain();
    TeensPlain();
    TensPlain();
  }

  lemma UnitsPlain()
    ensures forall k :: 1 <= k < 10 ==> PlainWord(Units[k])
  {
  }

  lemma TeensPlain()
    ensures forall k :: 0 <= k < 10 ==> PlainWord(Teens[k])
  {
  }

  lemma TensPlain()
    ensures forall k :: 2 <= k < 10 ==> PlainWord(Tens[k])
  {
  }

  lemma ScaleIsWord(i: nat)
    requires ScaleWord(i) != ""
    ensures IsWord(ScaleWord(i)) && ScaleWord(i) != "zero"
  {
  }

  /** The words of a non-zero chunk: at least one, none of them "zero". */
  lemma ChunkWords(c: nat)
    requires 0 < c < 1000
    ensures ChunkTokens(c) != [] && AllWords(ChunkTokens(c))
    ensures forall k :: 0 <= k < |ChunkTokens(c)| ==> ChunkTokens(c)[k] != "zero"
  {
    TableWords();
    RemainderPieceIsJoin(c % 100);
    if c % 100 >= 20 { CompoundIsWord(c % 100); }
  }

  /** A tens word with an optional hyphenated unit is still a word, and not "zero". */
  lemma CompoundIsWord(r: nat)
    requires 20 <= r < 100
    ensures IsWord(RemainderPiece(r)) && RemainderPiece(r) != "zero"
  {
    TableWords();
    var t := Tens[r / 10];
    var w := RemainderPiece(r);
    assert IsWord(t);
    forall i | 0 <= i < |w| ensures !IsWhitespace(w[i]) {
      if i < |t| { assert w[i] == t[i]; }
      else if i > |t| { assert w[i] == Units[r % 10][i - |t| - 1]; }
    }
    if r % 10 != 0 { assert w[|t|] == '-'; }
  }

  // ---------------------------------------------------------------------------
  // Properties of the words

  /** The words of a number are words, never "zero", and there is at least one when the number is not 0. */
  lemma {:induction false} NumberTokensWords(n: nat, i: nat)
    ensures AllWords(NumberTokens(n, i))
    ensures forall k :: 0 <= k < |NumberTokens(n, i)| ==> NumberTokens(n, i)[k] != "zero"
    ensures n > 0 ==> NumberTokens(n, i) != []
    decreases n
  {
    if n > 0 {
      NumberTokensWords(n / 1000, i + 1);
      var high, part := NumberTokens(n / 1000, i + 1), ChunkPart(n % 1000, i);
      assert NumberTokens(n, i) == high + part;
      if n % 1000 != 0 {
        ChunkWords(n % 1000);
        if ScaleWord(i) != "" { ScaleIsWord(i); }
        assert part == ChunkTokens(n % 1000) + ScaleTokens(i);
      } else {
        assert n / 1000 > 0;
      }
    }
  }

  lemma HasTokens(n: nat, i: nat)
    ensures n > 0 <==> NumberTokens(n, i) != []
  {
  }

  /** `numberToWords` gives "zero" exactly for 0; otherwise a non-empty text with no whitespace at
      either end and never two spaces in a row. */
  lemma WordsShape(n: nat)
    ensures Words(n) == "zero" <==> n == 0
    ensures Words(n) != "" && WellSpaced(Words(n))
  {
    if n > 0 {
      var ts := NumberTokens(n, 0);
      NumberTokensWords(n, 0);
      JoinWellSpaced(ts);
      if |ts| >= 2 {
        JoinHasSpace(ts);
        assert ' ' !in "zero";
      } else {
        assert Words(n) == ts[0];
      }
    }
  }

  /** A number below 1000 reads as its single chunk, with no scale word. */
  lemma SingleChunk(c: nat)
    requires 0 < c < 1000
    ensures Words(c) == ChunkText(c)
  {
    assert c / 1000 == 0 && c % 1000 == c;
    assert NumberTokens(c, 0) == NumberTokens(0, 1) + ChunkPart(c, 0);
    assert ChunkPart(c, 0) == ChunkTokens(c) + [];
    assert NumberTokens(c, 0) == ChunkTokens(c);
  }

  lemma DivMod1000(a: nat, b: nat)
    requires b < 1000
    ensures (1000 * a + b) / 1000 == a && (1000 * a + b) % 1000 == b
  {
  }

  /** `NumberTokens` of a number whose base-1000 digits above and at position `i` are known. */
  lemma TokensOfDigits(n: nat, i: nat, high: nat, c: nat)
    requires n > 0 && c < 1000 && n / 1000 == high && n % 1000 == c
    ensures NumberTokens(n, i) == NumberTokens(high, i + 1) + ChunkPart(c, i)
  {
  }

  /** A number below 1000 is its own last chunk. */
  lemma LastChunkTokens(c: nat, i: nat)
    requires 0 < c < 1000
    ensures NumberTokens(c, i) == ChunkPart(c, i)
  {
  }

  lemma ThousandsTokens(a: nat, b: nat)
    requires 0 < a < 1000 && b < 1000
    ensures NumberTokens(1000 * a + b, 0) == ChunkTokens(a) + ["thousand"] + ChunkPart(b, 0)
  {
    DivMod1000(a, b);
    TokensOfDigits(1000 * a + b, 0, a, b);
    LastChunkTokens(a, 1);
    assert ScaleTokens(1) == ["thousand"];
  }

  lemma ThousandsJoin(a: nat, b: nat)
    requires 0 < a < 1000 && b < 1000
    ensures JoinSpaces(ChunkTokens(a) + ["thousand"] + ChunkPart(b, 0))
            == ChunkText(a) + " thousand" + (if b == 0 then "" else " " + ChunkText(b))
  {
    ChunkWords(a);
    JoinAround(ChunkTokens(a), "thousand", ChunkPart(b, 0));
    assert [' '] + "thousand" == " thousand";
    if b != 0 {
      ChunkWords(b);
      assert ChunkPart(b, 0) == ChunkTokens(b) + [];
      assert ChunkPart(b, 0) == ChunkTokens(b);
      assert JoinSpaces(ChunkPart(b, 0)) == ChunkText(b);
    }
  }

  /** Below a million: the thousands chunk followed by "thousand", then the last chunk unless it is zero;
      a zero chunk is skipped, never read as "zero thousand". */
  lemma ThousandsChunk(a: nat, b: nat)
    requires 0 < a < 1000 && b < 1000
    ensures Words(1000 * a + b) == ChunkText(a) + " thousand" + (if b == 0 then "" else " " + ChunkText(b))
  {
    ThousandsTokens(a, b);
    ThousandsJoin(a, b);
  }

  lemma MillionsTokens(n: nat, m: nat, k: nat)
    requires 0 < m < 1000 && k < 1000000 && n == 1000000 * m + k
    ensures NumberTokens(n, 0) == ChunkTokens(m) + ["million"] + NumberTokens(k, 0)
  {
    var h, a, b := 1000 * m + k / 1000, k / 1000, k % 1000;
    MillionsDigits(n, m, k, h, a, b);
    MillionsSplit(n, h, m, a, b);
    LowTokens(k, a, b);
    AppendAssoc(ChunkTokens(m) + ["million"], ChunkPart(a, 1), ChunkPart(b, 0));
  }

  /** The base-1000 digits of `1000000 * m + k`. */
  lemma MillionsDigits(n: nat, m: nat, k: nat, h: nat, a: nat, b: nat)
    requires k < 1000000 && n == 1000000 * m + k && h == 1000 * m + a && a == k / 1000 && b == k % 1000
    ensures a < 1000 && b < 1000 && n / 1000 == h && n % 1000 == b && h / 1000 == m && h % 1000 == a
  {
  }

  lemma MillionsSplit(n: nat, h: nat, m: nat, a: nat, b: nat)
    requires 0 < m < 1000 && a < 1000 && b < 1000
    requires n / 1000 == h && n % 1000 == b && h / 1000 == m && h % 1000 == a && n > 0 && h > 0
    ensures NumberTokens(n, 0) == ChunkTokens(m) + ["million"] + ChunkPart(a, 1) + ChunkPart(b, 0)
  {
    TokensOfDigits(n, 0, h, b);
    TokensOfDigits(h, 1, m, a);
    LastChunkTokens(m, 2);
    assert ScaleTokens(2) == ["million"];
  }

  /** A number below a million as its thousands part and its last chunk. */
  lemma LowTokens(k: nat, a: nat, b: nat)
    requires k < 1000000 && a == k / 1000 && b == k % 1000
    ensures a < 1000
    ensures NumberTokens(k, 0) == ChunkPart(a, 1) + ChunkPart(b, 0)
  {
    if k != 0 {
      TokensOfDigits(k, 0, a, b);
      if a != 0 {
        LastChunkTokens(a, 1);
      } else {
        assert NumberTokens(a, 1) == [] == ChunkPart(a, 1);
      }
    } else {
      assert ChunkPart(a, 1) == [] && ChunkPart(b, 0) == [];
    }
  }

  lemma MillionsJoin(m: nat, k: nat)
    requires 0 < m < 1000 && k < 1000000
    ensures JoinSpaces(ChunkTokens(m) + ["million"] + NumberTokens(k, 0))
            == ChunkText(m) + " million" + (if k == 0 then "" else " " + Words(k))
  {
    ChunkNonEmpty(m);
    var rest := NumberTokens(k, 0);
    JoinAround(ChunkTokens(m), "million", rest);
    assert [' '] + "million" == " million";
    RestWords(k);
  }

  /** A non-zero chunk has at least one word. */
  lemma ChunkNonEmpty(c: nat)
    requires 0 < c < 1000
    ensures ChunkTokens(c) != []
  {
  }

  /** The words after a millions chunk: none for 0, otherwise the words of the rest. */
  lemma RestWords(k: nat)
    ensures k == 0 <==> NumberTokens(k, 0) == []
    ensures k != 0 ==> Words(k) == JoinSpaces(NumberTokens(k, 0))
  {
    HasTokens(k, 0);
  }

  lemma MillionsWords(m: nat, k: nat)
    requires 0 < m < 1000 && k < 1000000
    ensures Words(1000000 * m + k) == JoinSpaces(ChunkTokens(m) + ["million"] + NumberTokens(k, 0))
  {
    var n := 1000000 * m + k;
    PositiveWords(n);
    MillionsTokens(n, m, k);
  }

  lemma PositiveWords(n: nat)
    requires n > 0
    ensures Words(n) == JoinSpaces(NumberTokens(n, 0))
  {
  }

  /** The millions chunk followed by "million", then the words of the rest unless it is zero. */
  lemma MillionsChunk(m: nat, k: nat)
    requires 0 < m < 1000 && k < 1000000
    ensures Words(1000000 * m + k) == ChunkText(m) + " million" + (if k == 0 then "" else " " + Words(k))
  {
    MillionsWords(m, k);
    MillionsJoin(m, k);
  }

  /** Scale words by chunk position: none for the last chunk, "thousand", "million", and none again from
      the billions up, where the table has no entry. */
  lemma ScaleByPosition(i: nat)
    ensures ScaleTokens(i) == (if i == 1 then ["thousand"] else if i == 2 then ["million"] else [])
  {
  }

  /** The dropped scale word makes one billion read like one. */
  lemma BillionReadsAsOne()
    ensures Words(1000000000) == "one" == Words(1)
  {
  }

  /** A chunk has the word "hundred" exactly when its hundreds digit is not zero. */
  lemma HundredIffHundredsDigit(c: nat)
    requires c < 1000
    ensures "hundred" in ChunkTokens(c) <==> c >= 100
  {
    TableWords();
    if c % 100 >= 20 { CompoundIsWord(c % 100); }
    var rem := RemainderTokens(c % 100);
    assert forall k :: 0 <= k < |rem| ==> rem[k] != "hundred" by {
      if c % 100 >= 20 {
        var w := RemainderPiece(c % 100);
        assert rem == [w];
        if c % 100 % 10 != 0 { assert w[|Tens[c % 100 / 10]|] == '-'; assert '-' !in "hundred"; }
      }
    }
    if c >= 100 { assert ChunkTokens(c)[1] == "hundred"; }
  }

  /** A chunk has a hyphen exactly when its last two digits are 21-99 with a non-zero unit digit. */
  lemma HyphenIffCompound(c: nat)
    requires c < 1000
    ensures '-' in ChunkText(c) <==> c % 100 > 20 && c % 10 != 0
  {
    var h, r := c / 100, c % 100;
    LastDigit(c);
    ChunkTextShape(c, h, r);
    RemainderHyphen(r);
    if h != 0 {
      HundredHead(h);
      if r != 0 { HyphenAfter(Units[h] + " hundred", RemainderPiece(r)); }
    }
  }

  lemma LastDigit(c: nat)
    ensures c % 10 == c % 100 % 10
  {
  }

  /** A chunk's text: the hundreds words, then the words for the last two digits. */
  lemma ChunkTextShape(c: nat, h: nat, r: nat)
    requires c < 1000 && h == c / 100 && r == c % 100
    ensures h < 10
    ensures ChunkText(c) == if h == 0 then RemainderPiece(r)
                            else if r == 0 then Units[h] + " hundred"
                            else Units[h] + " hundred" + " " + RemainderPiece(r)
  {
    RemainderPieceIsJoin(r);
    var w := RemainderPiece(r);
    if h != 0 {
      HundredHead(h);
      if r == 0 {
        assert ChunkTokens(c) == [Units[h], "hundred"];
      } else {
        assert RemainderTokens(r) == [w];
        assert ChunkTokens(c) == [Units[h], "hundred"] + [w];
        JoinAppend([Units[h], "hundred"], [w]);
      }
    } else {
      assert ChunkTokens(c) == RemainderTokens(r);
    }
  }

  /** The words for the last two digits hold a hyphen exactly for 21-99 with a non-zero unit digit:
      10-19 take their word from the teens table, and a round ten is its tens word alone. */
  lemma RemainderHyphen(r: nat)
    requires r < 100
    ensures '-' in RemainderPiece(r) <==> r > 20 && r % 10 != 0
    ensures 10 <= r < 20 ==> RemainderPiece(r) == Teens[r - 10]
    ensures 20 <= r && r % 10 == 0 ==> RemainderPiece(r) == Tens[r / 10]
  {
    TableWords();
    var w := RemainderPiece(r);
    if r > 20 && r % 10 != 0 {
      assert w[|Tens[r / 10]|] == '-';
    } else if r >= 20 {
      assert w == Tens[r / 10];
    }
  }

  /** The hundreds words of a chunk joined, with no hyphen. */
  lemma HundredHead(h: nat)
    requires 1 <= h < 10
    ensures JoinSpaces([Units[h], "hundred"]) == Units[h] + " hundred"
    ensures '-' !in Units[h] + " hundred"
  {
  }

  /** Joining a hyphen-free text in front adds no hyphen and hides none. */
  lemma HyphenAfter(head: string, w: string)
    requires '-' !in head
    ensures '-' in head + " " + w <==> '-' in w
  {
  }

  // Worked examples of the conversion.

  lemma ExampleZero()
    ensures Words(0) == "zero"
  {
  }

  lemma ExampleTwentyOne()
    ensures Words(21) == "twenty-one"
  {
  }

  lemma ExampleHundred()
    ensures Words(100) == "one hundred"
  {
  }

  lemma ExampleThousand()
    ensures Words(1000) == "one thousand"
  {
  }

  lemma ExampleMillion()
    ensures Words(1000000) == "one million"
  {
  }

  lemma NinesChunk()
    ensures ChunkText(999) == "nine hundred ninety-nine"
  {
  }

  lemma NinetyNine()
    ensures RemainderTokens(99) == ["ninety-nine"]
  {
    assert 99 / 10 == 9 && 99 % 10 == 9;
    assert Tens[9] == "ninety" && Units[9] == "nine";
    assert RemainderTokens(99) == ["ninety" + ("-" + "nine")];
    assert "ninety" + ("-" + "nine") == "ninety-nine";
  }

  lemma ExampleNines()
    ensures Words(999999) == "nine hundred ninety-nine" + " thousand " + "nine hundred ninety-nine"
  {
    ThousandsChunk(999, 999);
    NinesChunk();
    var x := "nine hundred ninety-nine";
    assert x + " thousand" + (" " + x) == x + " thousand " + x;
  }
}
