/** speedtest1_numbername as it runs: every piece goes through a bounded print into the caller's
    buffer, and the recursive calls get what is left of it. */
module NumberBuffer {
  import opened Words
  import opened NumberName

  const NUL: char := '\0'

  /** The part of a text that fits into size bytes with its terminator. */
  function Fit(text: string, size: nat): (r: string)
    requires size >= 1
    ensures r <= text && |r| == if |text| < size then |text| else size - 1
  {
    if |text| < size then text else text[..size - 1]
  }

  /** i is the length of what fits of text, and the buffer holds it from off on. */
  ghost predicate Holds(buf: array<char>, off: nat, size: nat, i: nat, text: string)
    requires size >= 1 && off + size <= buf.Length
    reads buf
  {
    i == |Fit(text, size)| && buf[off..off + i] == Fit(text, size)
  }

  /** Nothing outside [lo, hi) differs from an earlier content. */
  ghost predicate Outside(buf: array<char>, was: seq<char>, lo: nat, hi: nat)
    requires |was| == buf.Length
    reads buf
  {
    forall k :: 0 <= k < buf.Length && !(lo <= k < hi) ==> buf[k] == was[k]
  }

  lemma {:induction false} FitConcat(a: string, b: string, size: nat)
    requires size >= 1
    ensures var i := |Fit(a, size)|; Fit(a + b, size) == Fit(a, size) + Fit(b, size - i)
  {
  }

  /** sqlite3_snprintf of a text without format arguments. */
  method Snprintf(size: nat, buf: array<char>, off: nat, text: string)
    requires size >= 1 && off + size <= buf.Length
    modifies buf
    ensures Holds(buf, off, size, |Fit(text, size)|, text) && buf[off + |Fit(text, size)|] == NUL
    ensures Outside(buf, old(buf[..]), off, off + size)
  {
    var t := Fit(text, size);
    for k := 0 to |t|
      invariant buf[off..off + k] == t[..k]
      invariant Outside(buf, old(buf[..]), off, off + size)
    {
      buf[off + k] := t[k];
      assert buf[off..off + k + 1] == buf[off..off + k] + [t[k]];
    }
    buf[off + |t|] := NUL;
    assert buf[off..off + |t|] == t;
  }

  /** strlen. */
  method Strlen(buf: array<char>, off: nat, ghost end: nat) returns (n: nat)
    requires off <= end < buf.Length && buf[end] == NUL
    requires forall k :: off <= k < end ==> buf[k] != NUL
    ensures n == end - off
  {
    n := 0;
    while buf[off + n] != NUL
      invariant off + n <= end
      decreases end - off - n
    {
      n := n + 1;
    }
  }

  ghost predicate NoNul(text: string) {
    NUL !in text
  }

  lemma {:induction false} NoNulIn(buf: array<char>, lo: nat, t: string)
    requires lo + |t| <= buf.Length && buf[lo..lo + |t|] == t && NUL !in t
    ensures forall k :: lo <= k < lo + |t| ==> buf[k] != NUL
  {
    forall k | lo <= k < lo + |t|
      ensures buf[k] != NUL
    {
      assert buf[k] == t[k - lo];
    }
  }

  /** Text written after what was there. */
  lemma {:induction false} Continued(buf: array<char>, off: nat, i: nat, t: string, was: seq<char>,
                                     done: string, size: nat)
    requires size >= 1 && i == |Fit(done, size)| && off + i + |t| <= buf.Length == |was|
    requires was[off..off + i] == Fit(done, size) && buf[off + i..off + i + |t|] == t
    requires Outside(buf, was, off + i, buf.Length)
    ensures buf[off..off + i + |t|] == Fit(done, size) + t
  {
    hide Fit;
    assert buf[off..off + i] == was[off..off + i];
    assert buf[off..off + i + |t|] == buf[off..off + i] + buf[off + i..off + i + |t|];
  }

  /** `sqlite3_snprintf(nOut-i, zOut+i, text); i += strlen(zOut+i)`. */
  method Append(buf: array<char>, off: nat, size: nat, i: nat, text: string, ghost done: string)
    returns (i': nat)
    requires size >= 1 && off + size <= buf.Length && NoNul(text) && Holds(buf, off, size, i, done)
    modifies buf
    ensures Holds(buf, off, size, i', done + text) && buf[off + i'] == NUL
    ensures Outside(buf, old(buf[..]), off, off + size)
  {
    hide Fit, Holds, Outside;
    Held(buf, off, size, i, done);
    ghost var t := Fit(text, size - i);
    Snprintf(size - i, buf, off + i, text);
    Extended(buf, off, size, i, done, text, old(buf[..]));
    var n := Strlen(buf, off + i, off + i + |t|);
    i' := i + n;
  }

  lemma {:induction false} Held(buf: array<char>, off: nat, size: nat, i: nat, text: string)
    requires size >= 1 && off + size <= buf.Length && Holds(buf, off, size, i, text)
    ensures i == |Fit(text, size)| < size && buf[..][off..off + i] == Fit(text, size)
  {
    assert buf[..][off..off + i] == buf[off..off + i];
  }

  /** What is written behind a text extends it and can be measured. */
  lemma {:induction false} Extended(buf: array<char>, off: nat, size: nat, i: nat, done: string, text: string,
                                    was: seq<char>)
    requires size >= 1 && off + size <= buf.Length == |was| && i == |Fit(done, size)| < size
    requires was[off..off + i] == Fit(done, size)
    requires Holds(buf, off + i, size - i, |Fit(text, size - i)|, text) && Outside(buf, was, off + i, off + size)
    ensures var n := |Fit(text, size - i)|;
      && Holds(buf, off, size, i + n, done + text) && Outside(buf, was, off, off + size)
      && (NoNul(text) ==> forall k :: off + i <= k < off + i + n ==> buf[k] != NUL)
  {
    hide Fit;
    var t := Fit(text, size - i);
    FitConcat(done, text, size);
    if NoNul(text) {
      NoNulIn(buf, off + i, t);
    }
    Continued(buf, off, i, t, was, done, size);
  }

  /** What a separating space adds. */
  function Separated(text: string): string {
    if text == "" then "" else text + " "
  }

  /** `if( i && i<nOut-1 ) zOut[i++] = ' '`. */
  method Separate(buf: array<char>, off: nat, size: nat, i: nat, ghost done: string) returns (i': nat)
    requires size >= 1 && off + size <= buf.Length && Holds(buf, off, size, i, done)
    modifies buf
    ensures Holds(buf, off, size, i', Separated(done))
    ensures Outside(buf, old(buf[..]), off, off + size)
  {
    i' := i;
    FitConcat(done, " ", size);
    if i != 0 && i < size - 1 {
      buf[off + i] := ' ';
      i' := i + 1;
      assert buf[off..off + i'] == old(buf[off..off + i]) + [' '];
    }
  }

  // ----- words and text -----

  /** Joining more words onto a text is separating and joining. */
  lemma {:induction false} JoinAppend(ws: seq<string>, vs: seq<string>)
    requires vs != [] && Clean(ws)
    ensures Join(ws + vs) == Separated(Join(ws)) + Join(vs)
  {
    hide NoSpace;
    var n := |vs| - 1;
    if ws == [] {
      assert ws + vs == vs;
    } else {
      JoinNonempty(ws);
      assert (ws + vs)[..|ws + vs| - 1] == ws + vs[..n];
      if n == 0 {
        assert ws + vs[..n] == ws;
      } else {
        JoinAppend(ws, vs[..n]);
      }
    }
  }

  lemma {:induction false} JoinNonempty(ws: seq<string>)
    requires ws != [] && Clean(ws)
    ensures Join(ws) != ""
  {
  }

  lemma {:induction false} LexiconNoNul(k: nat)
    requires k < 32
    ensures NoNul(Lexicon(k))
  {
  }

  lemma {:induction false} CleanMore(ws: seq<string>, vs: seq<string>)
    requires Clean(ws) && Clean(vs)
    ensures Clean(ws + vs)
  {
  }

  /** The texts " thousand", " million", " billion" and " hundred". */
  lemma {:induction false} UnitText(k: nat)
    requires 28 <= k <= 31
    ensures NoNul(" " + Lexicon(k))
  {
    hide Lexicon;
    LexiconNoNul(k);
  }

  /** `i += speedtest1_numbername(q, zOut+i, nOut-i)`. */
  method AppendName(buf: array<char>, off: nat, size: nat, i: nat, q: word, ghost done: string)
    returns (i': nat)
    requires size >= 1 && off + size <= buf.Length && Holds(buf, off, size, i, done)
    modifies buf
    ensures Holds(buf, off, size, i', done + Name(q)) && buf[off + i'] == NUL
    ensures Outside(buf, old(buf[..]), off, off + size)
    decreases q, 4
  {
    hide Fit, Name, Holds, Outside, NoNul;
    Held(buf, off, size, i, done);
    var n := PrintName(buf, off + i, size - i, q);
    HoldsLength(buf, off + i, size - i, n, Name(q));
    Extended(buf, off, size, i, done, Name(q), old(buf[..]));
    i' := i + n;
  }

  /** One of the blocks of lines 352 to 371: a separating space (there is none before the first), the
      group's own name by a recursive call, and its unit. */
  method EmitScaled(buf: array<char>, off: nat, size: nat, i: nat, q: word, k: nat, ghost ws: seq<string>)
    returns (i': nat)
    requires size >= 1 && off + size <= buf.Length && 0 < q < 1000 && 29 <= k <= 31
    requires Clean(ws) && Holds(buf, off, size, i, Join(ws))
    modifies buf
    ensures Holds(buf, off, size, i', Join(ws + Scaled(q, Lexicon(k)))) && buf[off + i'] == NUL
    ensures Outside(buf, old(buf[..]), off, off + size)
    decreases q, 5
  {
    hide Lexicon, Join, Name, Holds, Scaled, Separated;
    i' := Separate(buf, off, size, i, Join(ws));
    i' := AppendName(buf, off, size, i', q, Separated(Join(ws)));
    UnitText(k);
    i' := Append(buf, off, size, i', " " + Lexicon(k), Separated(Join(ws)) + Name(q));
    ScaledText(ws, q, k);
  }

  lemma {:induction false} ScaledText(ws: seq<string>, q: word, k: nat)
    requires 0 < q < 1000 && 29 <= k <= 31 && Clean(ws)
    ensures Separated(Join(ws)) + Name(q) + (" " + Lexicon(k)) == Join(ws + Scaled(q, Lexicon(k)))
  {
    hide Lexicon, Join, Group;
    SmallName(q);
    CleanGroup(q);
    JoinAppend(ws, Scaled(q, Lexicon(k)));
    JoinAppend(Group(q), [Lexicon(k)]);
    JoinNonempty(Group(q));
    JoinSingle(Lexicon(k));
  }

  lemma {:induction false} JoinSingle(w: string)
    ensures Join([w]) == w
  {
  }

  /** Separating and appending one more word. */
  method EmitWord(buf: array<char>, off: nat, size: nat, i: nat, w: string, ghost ws: seq<string>)
    returns (i': nat)
    requires size >= 1 && off + size <= buf.Length && NoNul(w)
    requires Clean(ws) && Holds(buf, off, size, i, Join(ws))
    modifies buf
    ensures Holds(buf, off, size, i', Join(ws + [w])) && buf[off + i'] == NUL
    ensures Outside(buf, old(buf[..]), off, off + size)
  {
    hide Join, Holds, Separated;
    i' := Separate(buf, off, size, i, Join(ws));
    i' := Append(buf, off, size, i', w, Separated(Join(ws)));
    JoinAppend(ws, [w]);
    JoinSingle(w);
  }

  /** Lines 378 to 388: tens and ones. */
  method EmitTens(buf: array<char>, off: nat, size: nat, i: nat, t: nat, ghost ws: seq<string>)
    returns (i': nat)
    requires size >= 1 && off + size <= buf.Length && t < 100
    requires Clean(ws) && Holds(buf, off, size, i, Join(ws))
    modifies buf
    ensures Holds(buf, off, size, i', Join(ws + Tens(t)))
    ensures if t == 0 then i' == i && unchanged(buf) else buf[off + i'] == NUL
    ensures Outside(buf, old(buf[..]), off, off + size)
  {
    hide Join, Holds, Lexicon, NoSpace;
    i' := i;
    var n := t;
    ghost var vs := ws;
    if n >= 20 {
      LexiconNoNul(n / 10 + 18);
      LexiconNoSpace(n / 10 + 18);
      i' := EmitWord(buf, off, size, i', TensName(n / 10), vs);
      vs := vs + [TensName(n / 10)];
      n := n % 10;
    }
    if n > 0 {
      LexiconNoNul(n);
      i' := EmitWord(buf, off, size, i', Ones(n), vs);
      vs := vs + [Ones(n)];
    }
    assert vs == ws + Tens(t);
  }

  /** Lines 372 to 388: hundreds, tens and ones of the last group. */
  method EmitGroup(buf: array<char>, off: nat, size: nat, i: nat, g: nat, ghost ws: seq<string>)
    returns (i': nat)
    requires size >= 1 && off + size <= buf.Length && g < 1000
    requires Clean(ws) && Holds(buf, off, size, i, Join(ws))
    modifies buf
    ensures Holds(buf, off, size, i', Join(ws + Group(g)))
    ensures if g == 0 then i' == i && unchanged(buf) else buf[off + i'] == NUL
    ensures Outside(buf, old(buf[..]), off, off + size)
  {
    hide Join, Holds, Lexicon, Clean, Tens, Separated;
    i' := i;
    var n := g;
    ghost var vs := ws;
    if n >= 100 {
      HundredText(ws, n / 100);
      i' := Separate(buf, off, size, i', Join(vs));
      i' := Append(buf, off, size, i', Ones(n / 100) + " hundred", Separated(Join(vs)));
      vs := vs + [Ones(n / 100), "hundred"];
      n := n % 100;
    }
    i' := EmitTens(buf, off, size, i', n, vs);
    GroupText(ws, g, vs);
  }

  lemma {:induction false} GroupText(ws: seq<string>, g: nat, vs: seq<string>)
    requires g < 1000 && vs == if g >= 100 then ws + [Ones(g / 100), "hundred"] else ws
    ensures vs + Tens(g % 100) == ws + Group(g)
  {
    hide Lexicon, Tens;
    var h := if g >= 100 then [Ones(g / 100), "hundred"] else [];
    assert vs == ws + h;
    assert ws + h + Tens(g % 100) == ws + (h + Tens(g % 100));
  }

  lemma {:induction false} HundredText(ws: seq<string>, k: nat)
    requires 0 < k < 10 && Clean(ws)
    ensures NoNul(Ones(k) + " hundred")
    ensures Separated(Join(ws)) + (Ones(k) + " hundred") == Join(ws + [Ones(k), "hundred"])
    ensures Clean(ws + [Ones(k), "hundred"])
  {
    hide Lexicon, Join, NoSpace;
    LexiconNoNul(k);
    LexiconNoSpace(k);
    LexiconNoSpace(28);
    UnitWords();
    JoinAppend(ws, [Ones(k), "hundred"]);
    assert [Ones(k), "hundred"] == [Ones(k)] + ["hundred"];
    JoinAppend([Ones(k)], ["hundred"]);
    JoinSingle(Ones(k));
    JoinSingle("hundred");
    assert Ones(k) + " " + "hundred" == Ones(k) + " hundred";
  }

  /** A block with its guard: nothing happens below one unit. */
  method EmitPart(buf: array<char>, off: nat, size: nat, i: nat, n: word, unit: nat, k: nat,
                  ghost ws: seq<string>) returns (i': nat)
    requires size >= 1 && off + size <= buf.Length && 1000 <= unit && n / unit < 1000 && 29 <= k <= 31
    requires Clean(ws) && Holds(buf, off, size, i, Join(ws)) && (ws == [] || buf[off + i] == NUL)
    modifies buf
    ensures var vs := ws + Scaled(n / unit, Lexicon(k));
      Clean(vs) && Holds(buf, off, size, i', Join(vs)) && (vs == [] || buf[off + i'] == NUL)
    ensures Outside(buf, old(buf[..]), off, off + size)
    decreases n, 2
  {
    hide Lexicon, Join, Holds, Clean, NoSpace;
    GuardQuotient(n, unit);
    CleanScaled(n / unit, k);
    CleanMore(ws, Scaled(n / unit, Lexicon(k)));
    i' := i;
    if n >= unit {
      i' := EmitScaled(buf, off, size, i, n / unit, k, ws);
    } else {
      assert ws + Scaled(0, Lexicon(k)) == ws;
    }
  }

  lemma {:induction false} GuardQuotient(n: nat, unit: nat)
    requires unit >= 2
    ensures n >= unit <==> n / unit > 0
    ensures n > 0 ==> n / unit < n
  {
    var q, r := DivModDef(n, unit);
    if q > 0 {
      MulMono(1, q, unit);
      MulMono(2, unit, q);
    } else {
      MulMono(q, 0, unit);
    }
  }

  /** speedtest1_numbername: what fits of the name, terminated, within the given bytes. */
  method PrintName(buf: array<char>, off: nat, size: nat, n: word) returns (i: nat)
    requires size >= 1 && off + size <= buf.Length
    modifies buf
    ensures Holds(buf, off, size, i, Name(n)) && buf[off + i] == NUL
    ensures Outside(buf, old(buf[..]), off, off + size)
    decreases n, 3
  {
    hide Lexicon, Join, Scaled, Group, Clean, Holds, NoNul, Fit;
    i := 0;
    ghost var ws: seq<string> := [];
    StartEmpty(buf, off, size);
    UnitWords();
    NameParts(n);
    var m: word := n;
    i := EmitPart(buf, off, size, i, m, 1000000000, 31, ws);
    ws := ws + Scaled(m / 1000000000, "billion");
    m := m % 1000000000;
    i := EmitPart(buf, off, size, i, m, 1000000, 30, ws);
    ws := ws + Scaled(m / 1000000, "million");
    m := m % 1000000;
    i := EmitPart(buf, off, size, i, m, 1000, 29, ws);
    ws := ws + Scaled(m / 1000, "thousand");
    m := m % 1000;
    i := EmitGroup(buf, off, size, i, m, ws);
    ws := ws + Group(m);
    NamedWords(n, ws);
    HoldsLength(buf, off, size, i, Join(ws));
    ZeroText();
    if i == 0 {
      i := Append(buf, off, size, i, "zero", Join(ws));
      OnlyZero(buf, off, size, i, n, ws);
    }
  }

  /** A buffer of 115 bytes is large enough for every number: nothing is cut off and the number can be read
      back.  The callers pass the 2000 bytes of zNum. */
  method PrintWholeName(zNum: array<char>, n: word) returns (i: nat)
    requires zNum.Length >= 115
    modifies zNum
    ensures i <= 114 && zNum[i] == NUL && zNum[..i] == Name(n)
    ensures Parse(zNum[..i]) == n
  {
    hide Name, Parse;
    i := PrintName(zNum, 0, zNum.Length, n);
    NameLength(n);
    ParseName(n);
    assert zNum[0..i] == zNum[..i];
  }

  lemma {:induction false} HoldsLength(buf: array<char>, off: nat, size: nat, i: nat, text: string)
    requires size >= 1 && off + size <= buf.Length && Holds(buf, off, size, i, text)
    ensures i == |Fit(text, size)| < size && (i == 0 ==> Fit(text, size) == "") && (text == "" ==> i == 0)
  {
  }

  lemma {:induction false} ZeroText()
    ensures NoNul("zero") && Join([]) == "" && Group(0) == []
  {
  }

  /** The words so far are the name, except for zero itself. */
  lemma {:induction false} NamedWords(n: word, ws: seq<string>)
    requires ws == Scaled(n / 1000000000, "billion") + Scaled(n / 1000000 % 1000, "million")
      + Scaled(n / 1000 % 1000, "thousand") + Group(n % 1000)
    ensures n != 0 ==> ws == NameWords(n) && ws != []
    ensures n == 0 ==> ws == []
  {
    hide Lexicon;
    if n != 0 {
      CleanName(n);
    }
  }

  /** The last block runs for zero, and when the buffer has no room for any character. */
  lemma {:induction false} OnlyZero(buf: array<char>, off: nat, size: nat, i: nat, n: word, ws: seq<string>)
    requires size >= 1 && off + size <= buf.Length
    requires Holds(buf, off, size, i, Join(ws) + "zero") && (n == 0 ==> ws == [])
    requires n != 0 ==> ws == NameWords(n) && Fit(Join(ws), size) == ""
    ensures Holds(buf, off, size, i, Name(n))
  {
  }

  lemma {:induction false} StartEmpty(buf: array<char>, off: nat, size: nat)
    requires size >= 1 && off + size <= buf.Length
    ensures Holds(buf, off, size, 0, Join([])) && Clean([])
  {
  }

  lemma {:induction false} NameParts(n: word)
    ensures n % 1000000000 / 1000000 == n / 1000000 % 1000
    ensures n % 1000000000 % 1000000 / 1000 == n / 1000 % 1000
    ensures n % 1000000000 % 1000000 % 1000 == n % 1000
  {
    var a, b, c, d := n / 1000000000, n / 1000000 % 1000, n / 1000 % 1000, n % 1000;
    DivDiv(n, 1000, 1000);
    DivDiv(n, 1000000, 1000);
    assert n / 1000000 == a * 1000 + b;
    assert n / 1000 == n / 1000000 * 1000 + c;
    DivModUnique(n, 1000000000, a, b * 1000000 + c * 1000 + d);
    DivModUnique(b * 1000000 + c * 1000 + d, 1000000, b, c * 1000 + d);
    DivModUnique(c * 1000 + d, 1000, c, d);
  }
}
