/** Python `str` operations the core relies on: `startswith`, argument-less
    `split`, and `int` of a string, with the whitespace `int()` strips. */
module Text {
  import opened Wrappers

  /** The characters Python's `str.split()` treats as whitespace (those for
      which `str.isspace()` holds). */
  predicate IsSpace(c: char) {
    || c == ' ' || c == '\t' || c == '\n' || c == '\r'
    || c == '\U{000B}' || c == '\U{000C}'
    || ('\U{001C}' <= c <= '\U{001F}')
    || c == '\U{0085}' || c == '\U{00A0}' || c == '\U{1680}'
    || ('\U{2000}' <= c <= '\U{200A}')
    || c == '\U{2028}' || c == '\U{2029}' || c == '\U{202F}' || c == '\U{205F}' || c == '\U{3000}'
  }

  /** The whitespace `int()` strips around its argument: the same set except
      the four ASCII separators U+001C..U+001F. CPython turns only non-ASCII
      whitespace into spaces and then skips the six ASCII space characters. */
  predicate IsIntSpace(c: char) {
    IsSpace(c) && !('\U{001C}' <= c <= '\U{001F}')
  }

  predicate IsDigit(c: char) { '0' <= c <= '9' }

  function DigitChar(n: int): (c: char)
    requires 0 <= n <= 9
    ensures IsDigit(c) && c as int - '0' as int == n
  {
    ('0' as int + n) as char
  }

  function DigitValue(c: char): (n: int)
    requires IsDigit(c)
    ensures 0 <= n <= 9 && DigitChar(n) == c
  {
    c as int - '0' as int
  }

  predicate NoSpace(s: string) { forall i | 0 <= i < |s| :: !IsSpace(s[i]) }

  /** `s.startswith(prefix)`. */
  predicate StartsWith(s: string, prefix: string) {
    |prefix| <= |s| && s[..|prefix|] == prefix
  }

  /** A prefix of `s` is a prefix of anything `s` starts. */
  lemma StartsWithConcat(s: string, rest: string, prefix: string)
    requires StartsWith(s, prefix)
    ensures StartsWith(s + rest, prefix)
  {
    assert (s + rest)[..|prefix|] == s[..|prefix|];
  }

  /** The longest prefix of `s` without whitespace. */
  function Word(s: string): (w: string)
    ensures |w| <= |s| && w == s[..|w|] && NoSpace(w)
    ensures |w| < |s| ==> IsSpace(s[|w|])
    ensures s != [] && !IsSpace(s[0]) ==> |w| > 0
  {
    if s == [] || IsSpace(s[0]) then [] else [s[0]] + Word(s[1..])
  }

  /** `s.split()`: the maximal runs of non-whitespace characters, in order. */
  function Split(s: string): (tokens: seq<string>)
    ensures forall k | 0 <= k < |tokens| :: tokens[k] != [] && NoSpace(tokens[k])
    decreases |s|
  {
    if s == [] then []
    else if IsSpace(s[0]) then Split(s[1..])
    else
      var w := Word(s);
      [w] + Split(s[|w|..])
  }

  lemma {:induction false} WordOfPrefix(w: string, rest: string)
    requires NoSpace(w) && (rest == [] || IsSpace(rest[0]))
    ensures Word(w + rest) == w
  {
    if w != [] {
      assert (w + rest)[1..] == w[1..] + rest;
      WordOfPrefix(w[1..], rest);
    }
  }

  lemma {:induction false} SplitWord(w: string)
    requires w != [] && NoSpace(w)
    ensures Split(w) == [w]
  {
    WordOfPrefix(w, []);
    assert w + [] == w;
    assert w[|w|..] == [];
  }

  /** `(a + " " + b).split()` gives back the two words. */
  lemma SplitTwoWords(a: string, b: string)
    requires a != [] && NoSpace(a) && b != [] && NoSpace(b)
    ensures Split(a + " " + b) == [a, b]
  {
    var s := a + " " + b;
    assert s == a + (" " + b);
    WordOfPrefix(a, " " + b);
    assert s[|a|..] == " " + b;
    assert (" " + b)[1..] == b;
    SplitWord(b);
  }

  /** The leading whitespace `int()` strips, removed (`s.lstrip()` would also
      remove U+001C..U+001F). */
  function StripLeft(s: string): (t: string)
    ensures |t| <= |s| && t == s[|s| - |t|..]
    ensures t == [] || !IsIntSpace(t[0])
    ensures forall i | 0 <= i < |s| - |t| :: IsIntSpace(s[i])
  {
    if s != [] && IsIntSpace(s[0]) then StripLeft(s[1..]) else s
  }

  /** The trailing whitespace `int()` strips, removed. */
  function StripRight(s: string): (t: string)
    ensures |t| <= |s| && t == s[..|t|]
    ensures t == [] || !IsIntSpace(t[|t| - 1])
    ensures forall i | |t| <= i < |s| :: IsIntSpace(s[i])
  {
    if s != [] && IsIntSpace(s[|s| - 1]) then StripRight(s[..|s| - 1]) else s
  }

  /** The whitespace `int()` strips from both ends, removed. */
  function Strip(s: string): string {
    StripRight(StripLeft(s))
  }

  /** A decimal literal as `int()` accepts it after the sign: digits, with single
      underscores allowed between two digits. */
  predicate IsNumeral(s: string) {
    && |s| > 0 && IsDigit(s[0]) && IsDigit(s[|s| - 1])
    && (forall i | 0 <= i < |s| :: IsDigit(s[i]) || s[i] == '_')
    && (forall i | 0 <= i < |s| - 1 :: s[i] == '_' ==> s[i + 1] != '_')
  }

  /** The value of the digits of `s`, underscores skipped. */
  function NumeralValue(s: string): nat
    requires forall i | 0 <= i < |s| :: IsDigit(s[i]) || s[i] == '_'
  {
    if s == [] then 0
    else if s[|s| - 1] == '_' then NumeralValue(s[..|s| - 1])
    else 10 * NumeralValue(s[..|s| - 1]) + DigitValue(s[|s| - 1])
  }

  /** The number of decimal digits in `s`. */
  function DigitCount(s: string): nat {
    if s == [] then 0 else (if IsDigit(s[0]) then 1 else 0) + DigitCount(s[1..])
  }

  /** The most digits `int()` converts from a decimal string: CPython's default
      `sys.get_int_max_str_digits()` since versions 3.11, 3.10.7 and 3.9.14. */
  const MaxStrDigits := 4300

  /** `int(s)` for a base-10 string: the surrounding whitespace `int()` knows stripped, an optional
      sign, then a numeral of at most `MaxStrDigits` digits; `None` stands for
      the ValueError. */
  function ParseInt(s: string): (r: Option<int>)
    ensures r.Some? ==> exists k | 0 <= k < |s| :: IsDigit(s[k])
  {
    var t := Strip(s);
    if |t| > 0 && (t[0] == '+' || t[0] == '-') then
      var body := t[1..];
      if IsNumeral(body) && DigitCount(body) <= MaxStrDigits then
        assert IsDigit(t[1]);
        var v: int := NumeralValue(body);
        Some(if t[0] == '-' then -v else v)
      else None
    else if IsNumeral(t) && DigitCount(t) <= MaxStrDigits then
      assert IsDigit(t[0]);
      Some(NumeralValue(t))
    else None
  }

  /** The shortest decimal spelling of `n`, as Python's `str(n)` writes it. */
  function Decimal(n: nat): (s: string)
    ensures |s| > 0 && forall i | 0 <= i < |s| :: IsDigit(s[i])
  {
    if n < 10 then [DigitChar(n)] else Decimal(n / 10) + [DigitChar(n % 10)]
  }

  lemma {:induction false} DecimalValue(n: nat)
    ensures NumeralValue(Decimal(n)) == n
  {
    var s := Decimal(n);
    if n >= 10 {
      assert s[..|s| - 1] == Decimal(n / 10);
      DecimalValue(n / 10);
    }
  }

  lemma StripUnspaced(s: string)
    requires NoSpace(s)
    ensures Strip(s) == s
  {
    if s != [] {
      assert !IsIntSpace(s[0]) && !IsIntSpace(s[|s| - 1]);
    }
  }

  predicate AllSpace(s: string) { forall i | 0 <= i < |s| :: IsSpace(s[i]) }

  predicate AllIntSpace(s: string) { forall i | 0 <= i < |s| :: IsIntSpace(s[i]) }

  /** Taking the first character off a concatenation with a non-empty front. */
  lemma ConcatHead(a: string, b: string)
    requires a != []
    ensures (a + b)[0] == a[0] && (a + b)[1..] == a[1..] + b
  {
  }

  /** Taking the last character off a concatenation with a non-empty back. */
  lemma ConcatLast(a: string, b: string)
    requires b != []
    ensures (a + b)[|a + b| - 1] == b[|b| - 1] && (a + b)[..|a + b| - 1] == a + b[..|b| - 1]
  {
  }

  lemma {:induction false} StripLeftSpace(lead: string, s: string)
    requires AllIntSpace(lead) && s != [] && !IsIntSpace(s[0])
    ensures StripLeft(lead + s) == s
  {
    if lead != [] {
      var t := lead + s;
      ConcatHead(lead, s);
      assert IsIntSpace(t[0]);
      StripLeftSpace(lead[1..], s);
    } else {
      assert lead + s == s;
    }
  }

  lemma {:induction false} StripRightSpace(s: string, trail: string)
    requires AllIntSpace(trail) && s != [] && !IsIntSpace(s[|s| - 1])
    ensures StripRight(s + trail) == s
  {
    if trail != [] {
      var t := s + trail;
      ConcatLast(s, trail);
      assert IsIntSpace(t[|t| - 1]);
      StripRightSpace(s, trail[..|trail| - 1]);
    } else {
      assert s + trail == s;
    }
  }

  /** Stripping removes exactly the `int()` whitespace around a core that
      neither starts nor ends with it. */
  lemma StripAround(lead: string, core: string, trail: string)
    requires AllIntSpace(lead) && AllIntSpace(trail)
    requires core != [] && !IsIntSpace(core[0]) && !IsIntSpace(core[|core| - 1])
    ensures Strip(lead + core + trail) == core
  {
    assert lead + core + trail == lead + (core + trail);
    StripLeftSpace(lead, core + trail);
    StripRightSpace(core, trail);
  }

  lemma {:induction false} DigitCountOfDigits(s: string)
    requires forall i | 0 <= i < |s| :: IsDigit(s[i])
    ensures DigitCount(s) == |s|
  {
    if s != [] {
      DigitCountOfDigits(s[1..]);
    }
  }

  /** The value a sign gives a numeral's value `v`. */
  function Signed(sign: string, v: nat): int {
    if sign == "-" then 0 - v as int else v
  }

  /** `int()` of an optionally signed numeral with `int()` whitespace around it: the
      numeral's value, negated for `-`, when it has at most `MaxStrDigits`
      digits, and a ValueError when it has more. */
  lemma ParseIntNumeral(lead: string, sign: string, w: string, trail: string)
    requires AllIntSpace(lead) && AllIntSpace(trail)
    requires sign == "" || sign == "+" || sign == "-"
    requires IsNumeral(w)
    ensures DigitCount(w) <= MaxStrDigits ==>
              ParseInt(lead + sign + w + trail) == Some(Signed(sign, NumeralValue(w)))
    ensures DigitCount(w) > MaxStrDigits ==> ParseInt(lead + sign + w + trail) == None
  {
    var core := sign + w;
    assert core[|core| - 1] == w[|w| - 1];
    assert lead + sign + w + trail == lead + core + trail;
    StripAround(lead, core, trail);
    ParseIntOfStripped(lead + core + trail, sign, w);
  }

  lemma ParseIntOfStripped(s: string, sign: string, w: string)
    requires Strip(s) == sign + w
    requires sign == "" || sign == "+" || sign == "-"
    requires IsNumeral(w)
    ensures DigitCount(w) <= MaxStrDigits ==> ParseInt(s) == Some(Signed(sign, NumeralValue(w)))
    ensures DigitCount(w) > MaxStrDigits ==> ParseInt(s) == None
  {
    var t := sign + w;
    if sign != "" {
      assert t[0] == sign[0] && t[1..] == w;
    } else {
      assert t == w && IsDigit(t[0]);
    }
  }

  /** `s` spells an integer as `int()` reads it: whitespace `int()` strips, an
      optional sign, a numeral of at most `MaxStrDigits` digits, such whitespace. */
  predicate IntSpelling(s: string, lead: string, sign: string, w: string, trail: string) {
    && AllIntSpace(lead) && AllIntSpace(trail)
    && (sign == "" || sign == "+" || sign == "-")
    && IsNumeral(w) && DigitCount(w) <= MaxStrDigits
    && s == lead + sign + w + trail
  }

  lemma {:induction false} StripLeftSplit(s: string) returns (lead: string)
    ensures AllIntSpace(lead) && s == lead + StripLeft(s)
  {
    var l := StripLeft(s);
    lead := s[..|s| - |l|];
    assert s == lead + l;
    forall i | 0 <= i < |lead| ensures IsIntSpace(lead[i]) {
      assert lead[i] == s[i];
    }
  }

  lemma {:induction false} StripRightSplit(s: string) returns (trail: string)
    ensures AllIntSpace(trail) && s == StripRight(s) + trail
  {
    var r := StripRight(s);
    trail := s[|r|..];
    assert s == r + trail;
    forall i | 0 <= i < |trail| ensures IsIntSpace(trail[i]) {
      assert trail[i] == s[|r| + i];
    }
  }

  /** What stripping removes is `int()` whitespace on either side of the result. */
  lemma {:induction false} StripSplit(s: string) returns (lead: string, trail: string)
    ensures AllIntSpace(lead) && AllIntSpace(trail) && s == lead + Strip(s) + trail
  {
    lead := StripLeftSplit(s);
    var l := StripLeft(s);
    trail := StripRightSplit(l);
    var t := StripRight(l);
    ConcatAssoc(lead, t, trail);
  }

  lemma ConcatAssoc(a: string, b: string, c: string)
    ensures a + b + c == a + (b + c)
  {
  }

  /** What `int()` accepts is, once stripped, an optional sign before a numeral
      of at most `MaxStrDigits` digits. */
  lemma {:induction false} StrippedSpelling(s: string) returns (sign: string, w: string)
    requires ParseInt(s).Some?
    ensures sign == "" || sign == "+" || sign == "-"
    ensures IsNumeral(w) && DigitCount(w) <= MaxStrDigits && Strip(s) == sign + w
  {
    var t := Strip(s);
    if |t| > 0 && (t[0] == '+' || t[0] == '-') {
      sign, w := [t[0]], t[1..];
      SplitHead(t);
    } else {
      sign, w := "", t;
      assert t == sign + w;
    }
  }

  lemma SplitHead(t: string)
    requires t != []
    ensures t == [t[0]] + t[1..]
  {
  }

  /** Every string `int()` accepts is such a spelling, and its value is the one
      the spelling gives. */
  lemma {:induction false} ParseIntAccepts(s: string)
    requires ParseInt(s).Some?
    ensures exists lead, sign, w, trail | IntSpelling(s, lead, sign, w, trail) ::
              ParseInt(s).value == Signed(sign, NumeralValue(w))
  {
    var lead, trail := StripSplit(s);
    var sign, w := StrippedSpelling(s);
    ParseIntOfStripped(s, sign, w);
    ConcatAssoc(lead, sign, w);
    assert IntSpelling(s, lead, sign, w, trail);
  }

  /** `int()` raises ValueError exactly for the strings that are no such spelling. */
  lemma {:induction false} ParseIntRejects(s: string)
    ensures ParseInt(s).None? <==>
              forall lead, sign, w, trail :: !IntSpelling(s, lead, sign, w, trail)
  {
    if ParseInt(s).Some? {
      ParseIntAccepts(s);
    } else {
      forall lead, sign, w, trail ensures !IntSpelling(s, lead, sign, w, trail) {
        if IntSpelling(s, lead, sign, w, trail) {
          ParseIntNumeral(lead, sign, w, trail);
        }
      }
    }
  }

  /** `int()` does not strip the separators U+001C..U+001F, although
      `str.split()` splits on them: a string that starts or ends with one is
      rejected. */
  lemma ParseIntRejectsSeparator(s: string, c: char)
    requires '\U{001C}' <= c <= '\U{001F}'
    ensures ParseInt(s + [c]).None? && ParseInt([c] + s).None?
  {
    var t := StripKeepsLast(s, c);
    ParseIntOfNonDigitEnd(s + [c], t);
    t := StripKeepsFirst(s, c);
    ParseIntOfNonDigitEnd([c] + s, t);
  }

  /** A character `int()` does not strip survives stripping at the end. */
  lemma StripKeepsLast(s: string, c: char) returns (t: string)
    requires !IsIntSpace(c)
    ensures t == Strip(s + [c]) && t != [] && t[|t| - 1] == c
  {
    var u := s + [c];
    var l := StripLeft(u);
    assert u[|u| - 1] == c;
    assert l != [] && l[|l| - 1] == c;
    t := Strip(u);
  }

  /** A character `int()` does not strip survives stripping at the start. */
  lemma StripKeepsFirst(s: string, c: char) returns (t: string)
    requires !IsIntSpace(c)
    ensures t == Strip([c] + s) && t != [] && t[0] == c
  {
    var v := [c] + s;
    assert StripLeft(v) == v;
    t := StripRight(v);
    assert t != [] && t[0] == c;
  }

  /** `int()` rejects a string that, once stripped, starts with neither a sign
      nor a digit, or does not end with a digit. */
  lemma ParseIntOfNonDigitEnd(s: string, t: string)
    requires t == Strip(s) && t != []
    requires !IsDigit(t[|t| - 1]) || (!IsDigit(t[0]) && t[0] != '+' && t[0] != '-')
    ensures ParseInt(s).None?
  {
    if |t| > 1 {
      assert t[1..][|t| - 2] == t[|t| - 1];
    }
  }

  /** Python's `str(i)` for an integer. */
  function ShowInt(i: int): (s: string)
    ensures NoSpace(s) && s != []
  {
    if i < 0 then "-" + Decimal(-i) else Decimal(i)
  }

  /** `int(str(i)) == i` whenever `str(i)` has at most `MaxStrDigits` digits. */
  lemma ParseShowInt(i: int)
    requires DigitCount(ShowInt(i)) <= MaxStrDigits
    ensures ParseInt(ShowInt(i)) == Some(i)
  {
    var s := ShowInt(i);
    StripUnspaced(s);
    if i < 0 {
      var d := Decimal(-i);
      assert s[1..] == d;
      DecimalDigits(-i);
      ParseIntOfStripped(s, "-", d);
    } else {
      var d := Decimal(i);
      assert "" + d == d;
      DecimalDigits(i);
      ParseIntOfStripped(s, "", d);
    }
  }

  /** The decimal spelling is a numeral of its own length, with the value it spells. */
  lemma DecimalDigits(n: nat)
    ensures IsNumeral(Decimal(n)) && DigitCount(Decimal(n)) == |Decimal(n)|
    ensures NumeralValue(Decimal(n)) == n
  {
    DigitCountOfDigits(Decimal(n));
    DecimalValue(n);
  }

  // ---------------------------------------------------------------------------
  // `str.split()` over every arrangement of whitespace

  /** `gaps[0] + words[0] + gaps[1] + ... + words[n - 1] + gaps[n]`. */
  function Spaced(words: seq<string>, gaps: seq<string>): string
    requires |gaps| == |words| + 1
    decreases |words|
  {
    if words == [] then gaps[0] else gaps[0] + words[0] + Spaced(words[1..], gaps[1..])
  }

  /** `words` are non-empty and whitespace-free, the `gaps` around and between
      them are whitespace, and the gaps between two words are not empty. */
  predicate Separates(words: seq<string>, gaps: seq<string>) {
    && |gaps| == |words| + 1
    && (forall k | 0 <= k < |words| :: words[k] != [] && NoSpace(words[k]))
    && (forall k | 0 <= k < |gaps| :: AllSpace(gaps[k]))
    && (forall k | 0 < k < |words| :: gaps[k] != [])
  }

  lemma {:induction false} SplitSkipsSpace(g: string, s: string)
    requires AllSpace(g)
    ensures Split(g + s) == Split(s)
  {
    if g != [] {
      var t := g + s;
      assert t[0] == g[0] && IsSpace(g[0]);
      assert Split(t) == Split(t[1..]);
      assert t[1..] == g[1..] + s;
      SplitSkipsSpace(g[1..], s);
    } else {
      assert g + s == s;
    }
  }

  lemma SplitFirstWord(w: string, rest: string)
    requires w != [] && NoSpace(w) && (rest == [] || IsSpace(rest[0]))
    ensures Split(w + rest) == [w] + Split(rest)
  {
    WordOfPrefix(w, rest);
    assert (w + rest)[|w|..] == rest;
  }

  /** Dropping the first word and the gap before it keeps the arrangement. */
  lemma SeparatesTail(words: seq<string>, gaps: seq<string>)
    requires Separates(words, gaps) && words != []
    ensures Separates(words[1..], gaps[1..])
  {
    var ws, gs := words[1..], gaps[1..];
    assert forall k | 0 <= k < |ws| :: ws[k] == words[k + 1];
    assert forall k | 0 <= k < |gs| :: gs[k] == gaps[k + 1];
  }

  /** What follows a word is empty or starts with whitespace. */
  lemma SpacedAfterWord(words: seq<string>, gaps: seq<string>)
    requires Separates(words, gaps) && words != []
    ensures var rest := Spaced(words[1..], gaps[1..]);
            rest == [] || IsSpace(rest[0])
  {
    var ws, gs := words[1..], gaps[1..];
    SeparatesTail(words, gaps);
    if ws != [] {
      assert gs[0] == gaps[1] && gaps[1] != [];
      assert Spaced(ws, gs) == gs[0] + (ws[0] + Spaced(ws[1..], gs[1..]));
    }
  }

  /** `s.split()` returns exactly the words, in order, however much whitespace
      stands before, between and after them. */
  lemma {:induction false} SplitSpaced(words: seq<string>, gaps: seq<string>)
    requires Separates(words, gaps)
    ensures Split(Spaced(words, gaps)) == words
    decreases |words|
  {
    if words == [] {
      SplitSkipsSpace(gaps[0], []);
      assert gaps[0] + [] == gaps[0];
    } else {
      var rest := Spaced(words[1..], gaps[1..]);
      SeparatesTail(words, gaps);
      SpacedAfterWord(words, gaps);
      SplitSpaced(words[1..], gaps[1..]);
      SplitFirstWord(words[0], rest);
      assert Spaced(words, gaps) == gaps[0] + (words[0] + rest);
      SplitSkipsSpace(gaps[0], words[0] + rest);
    }
  }
}
