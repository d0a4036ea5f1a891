/** speedtest1_numbername: the English name of an unsigned number, into a bounded buffer. */
module NumberName {
  import opened Words

  // ----- the words -----

  /** All words: zero to nineteen, the tens from twenty to ninety, and the units. */
  function Lexicon(k: nat): string
    requires k < 32
  {
    match k
    case 0 => "zero"
    case 1 => "one"
    case 2 => "two"
    case 3 => "three"
    case 4 => "four"
    case 5 => "five"
    case 6 => "six"
    case 7 => "seven"
    case 8 => "eight"
    case 9 => "nine"
    case 10 => "ten"
    case 11 => "eleven"
    case 12 => "twelve"
    case 13 => "thirteen"
    case 14 => "fourteen"
    case 15 => "fifteen"
    case 16 => "sixteen"
    case 17 => "seventeen"
    case 18 => "eighteen"
    case 19 => "nineteen"
    case 20 => "twenty"
    case 21 => "thirty"
    case 22 => "forty"
    case 23 => "fifty"
    case 24 => "sixty"
    case 25 => "seventy"
    case 26 => "eighty"
    case 27 => "ninety"
    case 28 => "hundred"
    case 29 => "thousand"
    case 30 => "million"
    case _ => "billion"
  }

  /** ones[k]. */
  function Ones(k: nat): string
    requires k < 20
  {
    Lexicon(k)
  }

  /** tens[k], which the code uses from twenty on. */
  function TensName(k: nat): string
    requires 2 <= k < 10
  {
    Lexicon(k + 18)
  }

  /** The words below a hundred. */
  function Tens(n: nat): seq<string>
    requires n < 100
  {
    if n >= 20 then [TensName(n / 10)] + (if n % 10 > 0 then [Ones(n % 10)] else [])
    else if n > 0 then [Ones(n)] else []
  }

  /** The words of a group of three digits; none for zero. */
  function Group(n: nat): seq<string>
    requires n < 1000
  {
    (if n >= 100 then [Ones(n / 100), "hundred"] else []) + Tens(n % 100)
  }

  /** A group followed by its unit; nothing for zero. */
  function Scaled(n: nat, unit: string): seq<string>
    requires n < 1000
  {
    if n == 0 then [] else Group(n) + [unit]
  }

  /** The English name of n as a list of words. */
  function NameWords(n: word): seq<string> {
    if n == 0 then
      ["zero"]
    else
      Scaled(n / 1000000000, "billion") + Scaled(n / 1000000 % 1000, "million")
      + Scaled(n / 1000 % 1000, "thousand") + Group(n % 1000)
  }

  /** Words separated by single spaces. */
  function Join(ws: seq<string>): string {
    if ws == [] then "" else if |ws| == 1 then ws[0] else Join(ws[..|ws| - 1]) + " " + ws[|ws| - 1]
  }

  function Name(n: word): string {
    Join(NameWords(n))
  }

  // ----- reading a name back -----

  /** What a reader knows so far: the finished groups and the current group. */
  datatype Reading = Reading(total: nat, group: nat)

  /** The first position from i on at which the lexicon has w, or 32. */
  function Lookup(w: string, i: nat): (k: nat)
    requires i <= 32
    ensures i <= k <= 32
    decreases 32 - i
  {
    if i == 32 || Lexicon(i) == w then i else Lookup(w, i + 1)
  }

  function ReadWord(r: Reading, w: string): Reading {
    ReadIndex(r, Lookup(w, 0))
  }

  function ReadIndex(r: Reading, k: nat): Reading {
    if k < 20 then r.(group := r.group + k)
    else if k < 28 then r.(group := r.group + 10 * (k - 18))
    else if k == 28 then r.(group := r.group * 100)
    else if k == 29 then Reading(r.total + r.group * 1000, 0)
    else if k == 30 then Reading(r.total + r.group * 1000000, 0)
    else if k == 31 then Reading(r.total + r.group * 1000000000, 0)
    else r
  }

  function ReadWords(r: Reading, ws: seq<string>): Reading {
    if ws == [] then r else ReadWord(ReadWords(r, ws[..|ws| - 1]), ws[|ws| - 1])
  }

  /** Cutting a name at its spaces. */
  function Split(s: string): (ws: seq<string>)
    ensures |ws| >= 1
  {
    if s == "" then [""]
    else
      var ws := Split(s[..|s| - 1]);
      var c := s[|s| - 1];
      if c == ' ' then ws + [""] else ws[..|ws| - 1] + [ws[|ws| - 1] + [c]]
  }

  function Parse(s: string): nat {
    var r := ReadWords(Reading(0, 0), Split(s));
    r.total + r.group
  }

  // ----- the parser undoes the printer -----

  ghost predicate NoSpace(w: string) {
    ' ' !in w
  }

  lemma {:induction false} SplitChar(s: string, c: char)
    ensures var ws := Split(s);
      Split(s + [c]) == if c == ' ' then ws + [""] else ws[..|ws| - 1] + [ws[|ws| - 1] + [c]]
  {
  }

  lemma {:induction false} SplitWord(s: string, w: string)
    requires NoSpace(w)
    ensures var ws := Split(s); Split(s + w) == ws[..|ws| - 1] + [ws[|ws| - 1] + w]
  {
    hide Split;
    var ws := Split(s);
    var k := |ws| - 1;
    if w == "" {
      assert s + w == s;
      assert ws[k] + w == ws[k];
    } else {
      var n := |w| - 1;
      var v, c := w[..n], w[n];
      SplitWord(s, v);
      SplitChar(s + v, c);
      assert s + v + [c] == s + w;
      assert ws[k] + v + [c] == ws[k] + w;
    }
  }

  lemma {:induction false} SplitJoin(ws: seq<string>)
    requires ws != [] && forall i :: 0 <= i < |ws| ==> NoSpace(ws[i])
    ensures Split(Join(ws)) == ws
  {
    hide NoSpace, Split;
    var n := |ws| - 1;
    var w := ws[n];
    if n == 0 {
      SplitEmpty();
      SplitWord("", w);
      assert "" + w == w;
    } else {
      var t := Join(ws[..n]);
      SplitJoin(ws[..n]);
      SplitChar(t, ' ');
      SplitWord(t + " ", w);
      assert "" + w == w;
    }
  }

  lemma {:induction false} SplitEmpty()
    ensures Split("") == [""]
  {
  }

  /** Reading in two parts. */
  lemma {:induction false} ReadConcat(r: Reading, a: seq<string>, b: seq<string>)
    ensures ReadWords(r, a + b) == ReadWords(ReadWords(r, a), b)
  {
    hide ReadWord;
    if b == [] {
      assert a + b == a;
    } else {
      var n := |b| - 1;
      ReadConcat(r, a, b[..n]);
      assert (a + b)[..|a + b| - 1] == a + b[..n];
    }
  }

  lemma {:induction false} ReadOne(r: Reading, w: string)
    ensures ReadWords(r, [w]) == ReadWord(r, w)
  {
  }

  /** Length, first two letters and last letter tell the words apart. */
  function Key(w: string): int {
    if |w| < 3 then 0
    else ((|w| * 256 + w[0] as int) * 256 + w[1] as int) * 256 + w[|w| - 1] as int
  }

  function KeyAt(k: nat): int
    requires k < 32
  {
    match k
    case 0 => 75130223
    case 1 => 57634405
    case 2 => 57964399
    case 3 => 91514981
    case 4 => 73822066
    case 5 => 73820517
    case 6 => 57895288
    case 7 => 91448686
    case 8 => 90532212
    case 9 => 74344805
    case 10 => 57959790
    case 11 => 107310190
    case 12 => 108296037
    case 13 => 141846638
    case 14 => 140930926
    case 15 => 124152174
    case 16 => 125004142
    case 17 => 158557550
    case 18 => 140863854
    case 19 => 141453678
    case 20 => 108296057
    case 21 => 108292217
    case 22 => 90599289
    case 23 => 90597753
    case 24 => 91449721
    case 25 => 125003129
    case 26 => 107309433
    case 27 => 107899257
    case 28 => 124286308
    case 29 => 141846628
    case 30 => 124610926
    case _ => 123890030
  }

  lemma {:induction false} LexiconKey(k: nat)
    requires k < 32
    ensures Key(Lexicon(k)) == KeyAt(k)
  {
  }

  lemma {:induction false} KeysDistinct(i: nat, k: nat)
    requires i < k < 32
    ensures KeyAt(i) != KeyAt(k)
  {
  }

  lemma {:induction false} LookupFinds(k: nat, i: nat)
    requires i <= k < 32
    ensures Lookup(Lexicon(k), i) == k
    decreases k - i
  {
    hide Lexicon, Key, KeyAt;
    if i < k {
      LexiconKey(i);
      LexiconKey(k);
      KeysDistinct(i, k);
      LookupFinds(k, i + 1);
    }
  }

  lemma {:induction false} LexiconNoSpace(k: nat)
    requires k < 32
    ensures NoSpace(Lexicon(k)) && Lexicon(k) != ""
  {
  }

  lemma {:induction false} ReadLexicon(r: Reading, k: nat)
    requires k < 32
    ensures ReadWords(r, [Lexicon(k)]) == ReadIndex(r, k)
  {
    hide Lexicon, Lookup;
    ReadOne(r, Lexicon(k));
    LookupFinds(k, 0);
  }

  lemma {:induction false} ReadNothing(r: Reading)
    ensures ReadWords(r, []) == r
  {
  }

  lemma {:induction false} ReadTens(r: Reading, n: nat)
    requires n < 100
    ensures ReadWords(r, Tens(n)) == r.(group := r.group + n)
  {
    hide Lexicon, ReadWords;
    ReadNothing(r);
    if n >= 20 {
      var t := [TensName(n / 10)];
      var o := if n % 10 > 0 then [Ones(n % 10)] else [];
      ReadConcat(r, t, o);
      ReadLexicon(r, n / 10 + 18);
      var r' := ReadIndex(r, n / 10 + 18);
      ReadNothing(r');
      if n % 10 > 0 {
        ReadLexicon(r', n % 10);
      }
    } else if n > 0 {
      ReadLexicon(r, n);
    }
  }

  lemma {:induction false} UnitWords()
    ensures Lexicon(28) == "hundred" && Lexicon(29) == "thousand"
    ensures Lexicon(30) == "million" && Lexicon(31) == "billion"
  {
  }

  lemma {:induction false} ReadGroup(t: nat, n: nat)
    requires n < 1000
    ensures ReadWords(Reading(t, 0), Group(n)) == Reading(t, n)
  {
    hide Lexicon, ReadWords, Tens;
    var r := Reading(t, 0);
    var h := if n >= 100 then [Ones(n / 100), "hundred"] else [];
    ReadConcat(r, h, Tens(n % 100));
    if n >= 100 {
      UnitWords();
      assert h == [Lexicon(n / 100)] + [Lexicon(28)];
      ReadConcat(r, [Lexicon(n / 100)], [Lexicon(28)]);
      ReadLexicon(r, n / 100);
      ReadLexicon(Reading(t, n / 100), 28);
    } else {
      ReadNothing(r);
    }
    ReadTens(Reading(t, n / 100 * 100), n % 100);
  }

  lemma {:induction false} ReadScaled(t: nat, n: nat, k: nat)
    requires n < 1000 && 29 <= k <= 31
    ensures ReadWords(Reading(t, 0), Scaled(n, Lexicon(k)))
      == Reading(t + n * (if k == 29 then 1000 else if k == 30 then 1000000 else 1000000000), 0)
  {
    hide Lexicon, ReadWords, Group;
    var r := Reading(t, 0);
    if n == 0 {
      ReadNothing(r);
    } else {
      ReadConcat(r, Group(n), [Lexicon(k)]);
      ReadGroup(t, n);
      ReadLexicon(Reading(t, n), k);
    }
  }

  lemma {:induction false} ReadName(n: word)
    ensures var r := ReadWords(Reading(0, 0), NameWords(n)); r.total + r.group == n
  {
    hide Lexicon, ReadWords, Group, Scaled;
    UnitWords();
    var r := Reading(0, 0);
    if n == 0 {
      LexiconZero();
      ReadLexicon(r, 0);
    } else {
      var b, m, t := n / 1000000000, n / 1000000 % 1000, n / 1000 % 1000;
      var B, Mi, T, G := Scaled(b, "billion"), Scaled(m, "million"), Scaled(t, "thousand"), Group(n % 1000);
      ReadConcat(r, B + Mi + T, G);
      ReadConcat(r, B + Mi, T);
      ReadConcat(r, B, Mi);
      ReadScaled(0, b, 31);
      ReadScaled(b * 1000000000, m, 30);
      ReadScaled(b * 1000000000 + m * 1000000, t, 29);
      ReadGroup(b * 1000000000 + m * 1000000 + t * 1000, n % 1000);
      Thousands(n);
    }
  }

  lemma {:induction false} Thousands(n: nat)
    ensures n / 1000000000 * 1000000000 + n / 1000000 % 1000 * 1000000 + n / 1000 % 1000 * 1000 == n / 1000 * 1000
  {
    var k := n / 1000;
    DivDiv(n, 1000, 1000);
    DivDiv(n, 1000, 1000000);
    DivDiv(k, 1000, 1000);
  }

  lemma {:induction false} LexiconZero()
    ensures Lexicon(0) == "zero"
  {
  }

  // ----- the words have no spaces -----

  ghost predicate Clean(ws: seq<string>) {
    forall i :: 0 <= i < |ws| ==> NoSpace(ws[i]) && ws[i] != ""
  }

  lemma {:induction false} CleanName(n: word)
    ensures Clean(NameWords(n)) && NameWords(n) != []
  {
    hide Lexicon, NoSpace, Group, Scaled;
    LexiconZero();
    LexiconNoSpace(0);
    if n != 0 {
      CleanScaled(n / 1000000000, 31);
      CleanScaled(n / 1000000 % 1000, 30);
      CleanScaled(n / 1000 % 1000, 29);
      CleanGroup(n % 1000);
      UnitWords();
    }
  }

  lemma {:induction false} CleanScaled(n: nat, k: nat)
    requires n < 1000 && 29 <= k <= 31
    ensures Clean(Scaled(n, Lexicon(k))) && (n > 0 ==> Scaled(n, Lexicon(k)) != [])
  {
    hide Lexicon, NoSpace, Group;
    CleanGroup(n);
    LexiconNoSpace(k);
  }

  lemma {:induction false} CleanGroup(n: nat)
    requires n < 1000
    ensures Clean(Group(n)) && (n > 0 ==> Group(n) != [])
  {
    hide Lexicon, NoSpace;
    UnitWords();
    LexiconNoSpace(28);
    LexiconNoSpace(n / 100);
    var t := n % 100;
    if t >= 20 {
      LexiconNoSpace(t / 10 + 18);
      LexiconNoSpace(t % 10);
    } else {
      LexiconNoSpace(t);
    }
  }

  /** Reading a name gives the number back, for every 32-bit number. */
  lemma {:induction false} ParseName(n: word)
    ensures Parse(Name(n)) == n
  {
    hide NameWords, Split, Join, ReadWords;
    CleanName(n);
    SplitJoin(NameWords(n));
    ReadName(n);
  }

  /** Hence no two numbers have the same name. */
  lemma {:induction false} NameInjective(m: word, n: word)
    requires Name(m) == Name(n)
    ensures m == n
  {
    ParseName(m);
    ParseName(n);
  }

  // ----- names in full -----

  /** A number below a thousand has just its group of words for a name. */
  lemma {:induction false} SmallName(q: word)
    requires 0 < q < 1000
    ensures NameWords(q) == Group(q)
  {
    hide Group;
    assert q / 1000000000 == 0 && q / 1000000 % 1000 == 0 && q / 1000 % 1000 == 0 && q % 1000 == q;
  }

  lemma {:induction false} OneWord(k: word)
    requires 0 < k < 20
    ensures Name(k) == Lexicon(k)
  {
    hide Lexicon, NameWords;
    SmallName(k);
    assert Group(k) == [Lexicon(k)];
  }

  lemma {:induction false} TenWord(k: word)
    requires 2 <= k < 10
    ensures Name(10 * k) == Lexicon(k + 18)
  {
    hide Lexicon, NameWords;
    SmallName(10 * k);
    assert Group(10 * k) == [Lexicon(k + 18)];
  }

  lemma {:induction false} SmallNames()
    ensures Name(0) == "zero" && Name(1) == "one" && Name(2) == "two" && Name(3) == "three" && Name(4) == "four"
    ensures Name(5) == "five" && Name(6) == "six" && Name(7) == "seven" && Name(8) == "eight" && Name(9) == "nine"
    ensures Name(10) == "ten" && Name(11) == "eleven" && Name(12) == "twelve" && Name(13) == "thirteen" && Name(14) == "fourteen"
    ensures Name(15) == "fifteen" && Name(16) == "sixteen" && Name(17) == "seventeen" && Name(18) == "eighteen" && Name(19) == "nineteen"
  {
    hide Name;
    ZeroName();
    OneWord(1);
    OneWord(2);
    OneWord(3);
    OneWord(4);
    OneWord(5);
    OneWord(6);
    OneWord(7);
    OneWord(8);
    OneWord(9);
    OneWord(10);
    OneWord(11);
    OneWord(12);
    OneWord(13);
    OneWord(14);
    OneWord(15);
    OneWord(16);
    OneWord(17);
    OneWord(18);
    OneWord(19);
  }

  lemma {:induction false} ZeroName()
    ensures Name(0) == "zero"
  {
  }

  lemma {:induction false} TensNames()
    ensures Name(20) == "twenty" && Name(30) == "thirty" && Name(40) == "forty" && Name(50) == "fifty"
    ensures Name(60) == "sixty" && Name(70) == "seventy" && Name(80) == "eighty" && Name(90) == "ninety"
  {
    hide Name;
    TenWord(2);
    TenWord(3);
    TenWord(4);
    TenWord(5);
    TenWord(6);
    TenWord(7);
    TenWord(8);
    TenWord(9);
  }

  lemma {:induction false} JoinMore(ws: seq<string>, w: string)
    requires ws != []
    ensures Join(ws + [w]) == Join(ws) + " " + w
  {
    assert (ws + [w])[..|ws|] == ws;
  }

  lemma {:induction false} JoinFour(a: string, b: string, c: string, d: string)
    ensures Join([a, b, c, d]) == a + " " + b + " " + c + " " + d
  {
    assert Join([a]) == a;
    hide Join;
    JoinMore([a], b);
    JoinMore([a, b], c);
    JoinMore([a, b, c], d);
    assert [a] + [b] == [a, b];
    assert [a, b] + [c] == [a, b, c];
    assert [a, b, c] + [d] == [a, b, c, d];
  }

  /** The example of the source. */
  lemma {:induction false} Name123()
    ensures Name(123) == "one hundred twenty three"
  {
    hide Join, NameWords;
    Words123();
    JoinFour("one", "hundred", "twenty", "three");
  }

  lemma {:induction false} Words123()
    ensures NameWords(123) == ["one", "hundred", "twenty", "three"]
  {
    hide Group, NameWords, Lexicon;
    SmallName(123);
    FullGroup(1, 2, 3);
    SomeWords();
  }

  /** A group with all three digits. */
  lemma {:induction false} FullGroup(h: nat, t: nat, o: nat)
    requires 1 <= h < 10 && 2 <= t < 10 && 1 <= o < 10
    ensures Group(100 * h + 10 * t + o) == [Lexicon(h), "hundred", Lexicon(t + 18), Lexicon(o)]
  {
    hide Lexicon;
    var n := 100 * h + 10 * t + o;
    DivModUnique(n, 100, h, 10 * t + o);
    DivModUnique(10 * t + o, 10, t, o);
  }

  lemma {:induction false} SomeWords()
    ensures Lexicon(1) == "one" && Lexicon(2) == "two" && Lexicon(3) == "three" && Lexicon(4) == "four"
    ensures Lexicon(5) == "five" && Lexicon(7) == "seven" && Lexicon(9) == "nine"
    ensures Lexicon(20) == "twenty" && Lexicon(24) == "sixty" && Lexicon(27) == "ninety"
  {
  }

  /** The largest number, with all units. */
  lemma {:induction false} LargestName()
    ensures NameWords(4294967295) ==
      ["four", "billion", "two", "hundred", "ninety", "four", "million",
       "nine", "hundred", "sixty", "seven", "thousand", "two", "hundred", "ninety", "five"]
  {
    hide Group, Lexicon, Scaled;
    LargestParts();
  }

  lemma {:induction false} LargestParts()
    ensures Scaled(4, "billion") == ["four", "billion"]
    ensures Scaled(294, "million") == ["two", "hundred", "ninety", "four", "million"]
    ensures Scaled(967, "thousand") == ["nine", "hundred", "sixty", "seven", "thousand"]
    ensures Group(295) == ["two", "hundred", "ninety", "five"]
  {
    hide Group, Lexicon;
    GroupOfFour();
    FullGroup(2, 9, 4);
    FullGroup(9, 6, 7);
    FullGroup(2, 9, 5);
    SomeWords();
  }

  lemma {:induction false} GroupOfFour()
    ensures Group(4) == [Lexicon(4)]
  {
    hide Lexicon;
  }

  // ----- the longest name -----

  /** The characters of some words, each with a space before or after it. */
  function Span(ws: seq<string>): nat {
    if ws == [] then 0 else Span(ws[..|ws| - 1]) + |ws[|ws| - 1]| + 1
  }

  lemma {:induction false} JoinSpan(ws: seq<string>)
    ensures ws != [] ==> |Join(ws)| == Span(ws) - 1
  {
    if |ws| == 1 {
      assert ws[..0] == [];
      assert Span(ws[..0]) == 0;
    } else if |ws| > 1 {
      JoinSpan(ws[..|ws| - 1]);
    }
  }

  lemma {:induction false} SpanConcat(a: seq<string>, b: seq<string>)
    ensures Span(a + b) == Span(a) + Span(b)
  {
    if b == [] {
      assert a + b == a;
    } else {
      SpanConcat(a, b[..|b| - 1]);
      assert (a + b)[..|a + b| - 1] == a + b[..|b| - 1];
    }
  }

  lemma {:induction false} SpanOne(w: string)
    ensures Span([w]) == |w| + 1 && Span([]) == 0
  {
    assert [w][..0] == [];
    assert Span([w][..0]) == 0;
  }

  lemma {:induction false} LexiconLength(k: nat)
    requires k < 32
    ensures |Lexicon(k)| <= if k < 10 then 5 else if k < 20 then 9 else if k < 29 then 7 else if k == 29 then 8 else 7
  {
  }

  lemma {:induction false} TensSpan(n: nat)
    requires n < 100
    ensures Span(Tens(n)) <= if n < 10 then 6 else 14
  {
    hide Lexicon, Span;
    SpanOne("");
    if n >= 20 {
      LexiconLength(n / 10 + 18);
      LexiconLength(n % 10);
      SpanOne(Lexicon(n / 10 + 18));
      SpanOne(Lexicon(n % 10));
      SpanConcat([TensName(n / 10)], if n % 10 > 0 then [Ones(n % 10)] else []);
    } else {
      LexiconLength(n);
      SpanOne(Lexicon(n));
    }
  }

  lemma {:induction false} GroupSpan(n: nat)
    requires n < 1000
    ensures Span(Group(n)) <= if n < 10 then 6 else 28
  {
    hide Lexicon, Span, Tens;
    TensSpan(n % 100);
    var h: seq<string> := if n >= 100 then [Ones(n / 100), "hundred"] else [];
    SpanConcat(h, Tens(n % 100));
    SpanOne("hundred");
    if n >= 100 {
      LexiconLength(n / 100);
      SpanOne(Ones(n / 100));
      SpanConcat([Ones(n / 100)], ["hundred"]);
      assert h == [Ones(n / 100)] + ["hundred"];
    }
  }

  lemma {:induction false} ScaledSpan(n: nat, unit: string)
    requires n < 1000
    ensures Span(Scaled(n, unit)) <= (if n < 10 then 6 else 28) + |unit| + 1
  {
    hide Span, Group;
    GroupSpan(n);
    SpanOne(unit);
    SpanConcat(Group(n), [unit]);
  }

  /** No name has more than 114 characters. */
  lemma {:induction false} NameLength(n: word)
    ensures |Name(n)| <= 114
  {
    hide Span, Scaled, Group, Join;
    CleanName(n);
    JoinSpan(NameWords(n));
    if n == 0 {
      SpanOne("zero");
    } else {
      var b, m := Scaled(n / 1000000000, "billion"), Scaled(n / 1000000 % 1000, "million");
      var t, g := Scaled(n / 1000 % 1000, "thousand"), Group(n % 1000);
      ScaledSpan(n / 1000000000, "billion");
      ScaledSpan(n / 1000000 % 1000, "million");
      ScaledSpan(n / 1000 % 1000, "thousand");
      GroupSpan(n % 1000);
      SpanConcat(b, m);
      SpanConcat(b + m, t);
      SpanConcat(b + m + t, g);
    }
  }
}
