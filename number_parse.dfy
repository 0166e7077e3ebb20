/** Reading the words `numberToWords` produces back as a number: the inverse that shows the words
    determine the amount for every amount below one billion. */
module NumberParse {
  import opened Wrappers
  import opened Text
  import opened NumberWords

  /** The first index at or after `lo` where `table` holds `t`. */
  function Find(table: seq<string>, t: string, lo: nat): Option<nat>
    decreases |table| - lo
  {
    if lo >= |table| then None
    else if table[lo] == t then Some(lo)
    else Find(table, t, lo + 1)
  }

  /** The value of a word naming a number from 1 to 99: a unit, a teen, a tens word, or a tens word
      and a unit joined by a hyphen. */
  function SmallValue(t: string): Option<nat> {
    if '-' in t then
      var k := IndexOf(t, '-');
      match (Find(Tens, t[..k], 2), Find(Units, t[k + 1..], 1))
      case (Some(a), Some(b)) => Some(10 * a + b)
      case _ => None
    else
      match Find(Units, t, 1)
      case Some(u) => Some(u)
      case None =>
        match Find(Teens, t, 0)
        case Some(e) => Some(10 + e)
        case None =>
          match Find(Tens, t, 2)
          case Some(a) => Some(10 * a)
          case None => None
  }

  /** What one word means when reading a number. */
  datatype Lexeme = Number(value: nat) | Hundred | Scale(factor: nat) | Unknown

  function Lex(t: string): Lexeme {
    if t == "hundred" then Hundred
    else if t == "thousand" then Scale(1000)
    else if t == "million" then Scale(1000000)
    else match SmallValue(t)
      case Some(v) => Number(v)
      case None => Unknown
  }

  function LexAll(ts: seq<string>): (ls: seq<Lexeme>)
    ensures |ls| == |ts|
  {
    if ts == [] then [] else [Lex(ts[0])] + LexAll(ts[1..])
  }

  /** Reads lexemes left to right: a number adds to the current chunk, "hundred" multiplies it, and a
      scale word moves the chunk, scaled, into the total. */
  function Eval(ls: seq<Lexeme>, total: int, current: int): Option<int>
    decreases |ls|
  {
    if ls == [] then Some(total + current)
    else match ls[0]
      case Number(v) => Eval(ls[1..], total, current + v)
      case Hundred => Eval(ls[1..], total, current * 100)
      case Scale(f) => Eval(ls[1..], total + current * f, 0)
      case Unknown => None
  }

  /** The number a text of words names, if any. */
  function ParseWords(s: string): Option<int> {
    if s == "zero" then Some(0)
    else
      var ts := SplitSpaces(s);
      if ts == [] then None else Eval(LexAll(ts), 0, 0)
  }

  // ---------------------------------------------------------------------------
  // The tables hold distinct words

  lemma {:induction false} FindAt(table: seq<string>, k: nat, lo: nat)
    requires lo <= k < |table|
    requires forall j :: lo <= j < k ==> table[j] != table[k]
    ensures Find(table, table[k], lo) == Some(k)
    decreases k - lo
  {
    if lo < k {
      FindAt(table, k, lo + 1);
    }
  }

  lemma {:induction false} FindAbsent(table: seq<string>, t: string, lo: nat)
    requires forall j :: lo <= j < |table| ==> table[j] != t
    ensures Find(table, t, lo) == None
    decreases |table| - lo
  {
    if lo < |table| {
      FindAbsent(table, t, lo + 1);
    }
  }

  lemma UnitsDistinct(j: nat, k: nat)
    requires 1 <= j < 10 && 1 <= k < 10 && j != k
    ensures Units[j] != Units[k]
  {
  }

  lemma TeensDistinct(j: nat, k: nat)
    requires j < 10 && k < 10 && j != k
    ensures Teens[j] != Teens[k]
  {
  }

  lemma TensDistinct(j: nat, k: nat)
    requires 2 <= j < 10 && 2 <= k < 10 && j != k
    ensures Tens[j] != Tens[k]
  {
  }

  lemma UnitNotTeen(j: nat, k: nat)
    requires 1 <= j < 10 && k < 10
    ensures Units[j] != Teens[k]
  {
  }

  lemma UnitNotTens(j: nat, k: nat)
    requires 1 <= j < 10 && 2 <= k < 10
    ensures Units[j] != Tens[k]
  {
  }

  lemma TeenNotTens(j: nat, k: nat)
    requires j < 10 && 2 <= k < 10
    ensures Teens[j] != Tens[k]
  {
  }

  // ---------------------------------------------------------------------------
  // Each word is read as the value it was chosen for

  lemma UnitValue(k: nat)
    requires 1 <= k < 10
    ensures SmallValue(Units[k]) == Some(k)
  {
    TableWords();
    forall j | 1 <= j < k ensures Units[j] != Units[k] { UnitsDistinct(j, k); }
    FindAt(Units, k, 1);
  }

  lemma TeenValue(k: nat)
    requires k < 10
    ensures SmallValue(Teens[k]) == Some(10 + k)
  {
    TableWords();
    forall j | 1 <= j < 10 ensures Units[j] != Teens[k] { UnitNotTeen(j, k); }
    FindAbsent(Units, Teens[k], 1);
    forall j | 0 <= j < k ensures Teens[j] != Teens[k] { TeensDistinct(j, k); }
    FindAt(Teens, k, 0);
  }

  lemma TensValue(k: nat)
    requires 2 <= k < 10
    ensures SmallValue(Tens[k]) == Some(10 * k)
  {
    TableWords();
    forall j | 1 <= j < 10 ensures Units[j] != Tens[k] { UnitNotTens(j, k); }
    FindAbsent(Units, Tens[k], 1);
    forall j | 0 <= j < 10 ensures Teens[j] != Tens[k] { TeenNotTens(j, k); }
    FindAbsent(Teens, Tens[k], 0);
    forall j | 2 <= j < k ensures Tens[j] != Tens[k] { TensDistinct(j, k); }
    FindAt(Tens, k, 2);
  }

  lemma CompoundValue(a: nat, b: nat)
    requires 2 <= a < 10 && 1 <= b < 10
    ensures SmallValue(Tens[a] + ("-" + Units[b])) == Some(10 * a + b)
  {
    TableWords();
    HyphenSplit(Tens[a], Units[b]);
    forall j | 2 <= j < a ensures Tens[j] != Tens[a] { TensDistinct(j, a); }
    FindAt(Tens, a, 2);
    forall j | 1 <= j < b ensures Units[j] != Units[b] { UnitsDistinct(j, b); }
    FindAt(Units, b, 1);
  }

  /** A hyphen-free word, a hyphen, then another word: the split at the first hyphen recovers both. */
  lemma HyphenSplit(t: string, u: string)
    requires '-' !in t
    ensures var w := t + ("-" + u); IndexOf(w, '-') == |t| && w[..|t|] == t && w[|t| + 1..] == u
  {
    var w := t + ("-" + u);
    assert w[|t|] == '-';
    assert forall j :: 0 <= j < |t| ==> w[j] == t[j];
    assert w[..|t|] == t;
  }

  /** A word naming a number from 1 to 99 is not one of the words that scale the current chunk. */
  predicate NotScaling(w: string) {
    w != "million" && w != "thousand" && w != "hundred"
  }

  /** The last two digits of a non-zero chunk are one word that reads back as their value. */
  lemma RemainderValue(r: nat)
    requires 0 < r < 100
    ensures |RemainderTokens(r)| == 1
    ensures SmallValue(RemainderTokens(r)[0]) == Some(r) && NotScaling(RemainderTokens(r)[0])
  {
    if r < 10 {
      UnitsPlain();
      UnitValue(r);
      assert RemainderTokens(r) == [Units[r]];
    } else if r < 20 {
      TeensPlain();
      TeenValue(r - 10);
      assert RemainderTokens(r) == [Teens[r - 10]];
    } else {
      TensRemainderValue(r, r / 10, r % 10);
    }
  }

  lemma TensRemainderValue(r: nat, a: nat, b: nat)
    requires 20 <= r < 100 && a == r / 10 && b == r % 10
    ensures |RemainderTokens(r)| == 1
    ensures SmallValue(RemainderTokens(r)[0]) == Some(r) && NotScaling(RemainderTokens(r)[0])
  {
    assert 2 <= a < 10 && b < 10 && r == 10 * a + b;
    if b == 0 {
      assert Tens[a] + "" == Tens[a];
      assert RemainderTokens(r) == [Tens[a]];
      TensPlain();
      TensValue(a);
    } else {
      var w := Tens[a] + ("-" + Units[b]);
      assert RemainderTokens(r) == [w];
      CompoundValue(a, b);
      assert w[|Tens[a]|] == '-';
    }
  }

  // ---------------------------------------------------------------------------
  // Lexing the words of a number

  lemma {:induction false} LexAllAppend(a: seq<string>, b: seq<string>)
    ensures LexAll(a + b) == LexAll(a) + LexAll(b)
    decreases |a|
  {
    if a != [] {
      assert a + b != [] && (a + b)[0] == a[0] && (a + b)[1..] == a[1..] + b;
      LexAllAppend(a[1..], b);
      assert LexAll(a + b) == [Lex(a[0])] + LexAll(a[1..] + b);
      assert LexAll(a) == [Lex(a[0])] + LexAll(a[1..]);
      AppendAssoc([Lex(a[0])], LexAll(a[1..]), LexAll(b));
    } else {
      assert a + b == b;
    }
  }

  /** The lexemes of a chunk: its hundreds digit and "hundred" if set, then its remainder if not zero. */
  function ChunkLexemes(c: nat): seq<Lexeme>
    requires c < 1000
  {
    (if c / 100 != 0 then [Number(c / 100), Hundred] else [])
    + (if c % 100 != 0 then [Number(c % 100)] else [])
  }

  lemma LexRemainder(r: nat)
    requires r < 100
    ensures LexAll(RemainderTokens(r)) == if r != 0 then [Number(r)] else []
  {
    if r != 0 {
      RemainderValue(r);
      var w := RemainderTokens(r)[0];
      assert RemainderTokens(r) == [w];
      assert LexAll([w]) == [Lex(w)] + LexAll([]);
    }
  }

  lemma LexHundreds(h: nat)
    requires 1 <= h < 10
    ensures LexAll([Units[h], "hundred"]) == [Number(h), Hundred]
  {
    UnitValue(h);
    TableWords();
    assert [Units[h], "hundred"][1..] == ["hundred"];
    assert LexAll(["hundred"]) == [Lex("hundred")] + LexAll([]);
  }

  lemma LexChunk(c: nat)
    requires c < 1000
    ensures LexAll(ChunkTokens(c)) == ChunkLexemes(c)
  {
    var h, r := c / 100, c % 100;
    LexRemainder(r);
    if h != 0 {
      LexHundreds(h);
      LexAllAppend([Units[h], "hundred"], RemainderTokens(r));
    } else {
      assert ChunkTokens(c) == RemainderTokens(r);
    }
  }

  /** The lexemes of a chunk at scale position 1 or 2, with the scale word's factor. */
  function PartLexemes(c: nat, i: nat): seq<Lexeme>
    requires c < 1000
  {
    if c == 0 then [] else ChunkLexemes(c) + [Scale(if i == 1 then 1000 else 1000000)]
  }

  lemma LexScaledPart(c: nat, i: nat)
    requires c < 1000 && (i == 1 || i == 2)
    ensures LexAll(ChunkPart(c, i)) == PartLexemes(c, i)
  {
    if c != 0 {
      var s := ScaleWord(i);
      assert ChunkPart(c, i) == ChunkTokens(c) + [s];
      LexChunk(c);
      LexAllAppend(ChunkTokens(c), [s]);
      assert LexAll([s]) == [Lex(s)] + LexAll([]);
    }
  }

  lemma LexLastPart(c: nat)
    requires c < 1000
    ensures LexAll(ChunkPart(c, 0)) == ChunkLexemes(c)
  {
    if c != 0 {
      assert ScaleWord(0) == "";
      assert ScaleTokens(0) == [];
      assert ChunkPart(c, 0) == ChunkTokens(c) + [];
      assert ChunkTokens(c) + [] == ChunkTokens(c);
      LexChunk(c);
    } else {
      assert ChunkPart(c, 0) == [];
    }
  }

  // ---------------------------------------------------------------------------
  // Evaluating the lexemes of a number

  lemma EvalChunk(c: nat, rest: seq<Lexeme>, total: int)
    requires c < 1000
    ensures Eval(ChunkLexemes(c) + rest, total, 0) == Eval(rest, total, c)
  {
    var h, r := c / 100, c % 100;
    var low := if r != 0 then [Number(r)] else [];
    assert Eval(low + rest, total, h * 100) == Eval(rest, total, c) by {
      if r != 0 {
        assert (low + rest)[0] == Number(r) && (low + rest)[1..] == rest;
      } else {
        assert low + rest == rest;
      }
    }
    if h != 0 {
      var ls := ChunkLexemes(c) + rest;
      assert ls == [Number(h), Hundred] + (low + rest);
      assert ls[0] == Number(h) && ls[1..] == [Hundred] + (low + rest);
      assert ls[1..][1..] == low + rest;
    } else {
      assert ChunkLexemes(c) + rest == low + rest;
    }
  }

  lemma EvalScaledPart(c: nat, i: nat, rest: seq<Lexeme>, total: int)
    requires c < 1000 && (i == 1 || i == 2)
    ensures Eval(PartLexemes(c, i) + rest, total, 0)
            == Eval(rest, total + c * (if i == 1 then 1000 else 1000000), 0)
  {
    if c == 0 {
      assert PartLexemes(c, i) + rest == rest;
    } else {
      var f := if i == 1 then 1000 else 1000000;
      assert PartLexemes(c, i) + rest == ChunkLexemes(c) + ([Scale(f)] + rest);
      EvalChunk(c, [Scale(f)] + rest, total);
      assert ([Scale(f)] + rest)[0] == Scale(f) && ([Scale(f)] + rest)[1..] == rest;
    }
  }

  // ---------------------------------------------------------------------------
  // Whole numbers

  /** `NumberTokens` peels off one chunk, zero or not. */
  lemma PeelChunk(n: nat, i: nat)
    ensures NumberTokens(n, i) == NumberTokens(n / 1000, i + 1) + ChunkPart(n % 1000, i)
  {
  }

  lemma BelowBillion(n: nat)
    requires n < 1000000000
    ensures n / 1000 < 1000000 && n / 1000 / 1000 < 1000 && n / 1000 / 1000 / 1000 == 0
    ensures (n / 1000 / 1000) % 1000 == n / 1000 / 1000
    ensures n == 1000000 * (n / 1000 / 1000) + 1000 * (n / 1000 % 1000) + n % 1000
  {
  }

  /** Below one billion a number is at most three chunks, each with its own scale word. */
  lemma ThreeChunks(n: nat)
    requires n < 1000000000
    ensures NumberTokens(n, 0)
            == ChunkPart(n / 1000 / 1000, 2) + ChunkPart(n / 1000 % 1000, 1) + ChunkPart(n % 1000, 0)
  {
    BelowBillion(n);
    var q1, q2 := n / 1000, n / 1000 / 1000;
    PeelChunk(n, 0);
    PeelChunk(q1, 1);
    PeelChunk(q2, 2);
    assert NumberTokens(q2 / 1000, 3) == [];
    assert NumberTokens(q2, 2) == ChunkPart(q2, 2);
  }

  lemma LexNumber(n: nat, m: nat, a: nat, b: nat)
    requires n < 1000000000 && m == n / 1000 / 1000 && a == n / 1000 % 1000 && b == n % 1000
    requires m < 1000
    ensures LexAll(NumberTokens(n, 0)) == PartLexemes(m, 2) + PartLexemes(a, 1) + ChunkLexemes(b)
  {
    ThreeChunks(n);
    LexAllAppend(ChunkPart(m, 2) + ChunkPart(a, 1), ChunkPart(b, 0));
    LexAllAppend(ChunkPart(m, 2), ChunkPart(a, 1));
    LexScaledPart(m, 2);
    LexScaledPart(a, 1);
    LexLastPart(b);
  }

  /** Reading three chunks, most significant first, adds up their scaled values. */
  lemma EvalThreeParts(m: nat, a: nat, b: nat)
    requires m < 1000 && a < 1000 && b < 1000
    ensures Eval(PartLexemes(m, 2) + PartLexemes(a, 1) + ChunkLexemes(b), 0, 0)
            == Some(1000000 * m + 1000 * a + b)
  {
    var p2, p1, p0 := PartLexemes(m, 2), PartLexemes(a, 1), ChunkLexemes(b);
    assert p2 + p1 + p0 == p2 + (p1 + p0);
    EvalScaledPart(m, 2, p1 + p0, 0);
    EvalScaledPart(a, 1, p0, m * 1000000);
    EvalChunk(b, [], m * 1000000 + a * 1000);
    assert p0 + [] == p0;
  }

  /** The words of every number below one billion read back as that number. */
  lemma EvalNumber(n: nat)
    requires n < 1000000000
    ensures Eval(LexAll(NumberTokens(n, 0)), 0, 0) == Some(n)
  {
    BelowBillion(n);
    var m, a, b := n / 1000 / 1000, n / 1000 % 1000, n % 1000;
    assert n == 1000000 * m + 1000 * a + b;
    LexNumber(n, m, a, b);
    EvalThreeParts(m, a, b);
  }

  /** Reading the words of an amount below one billion gives the amount back. */
  lemma WordsRoundTrip(n: nat)
    requires n < 1000000000
    ensures ParseWords(Words(n)) == Some(n)
  {
    if n > 0 {
      WordsShape(n);
      NumberTokensWords(n, 0);
      SplitJoin(NumberTokens(n, 0));
      EvalNumber(n);
    }
  }

  /** Below one billion, different amounts never read the same. */
  lemma WordsInjective(n: nat, m: nat)
    requires n < 1000000000 && m < 1000000000
    requires Words(n) == Words(m)
    ensures n == m
  {
    WordsRoundTrip(n);
    WordsRoundTrip(m);
  }
}
