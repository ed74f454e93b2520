/** The Python `str` operations the server relies on, on `seq<char>`:
    `startswith`, the substring test `in`, `readlines`, `rstrip('\n')`,
    `split(sep)`, `sep.join`, `str(n)` / `float(s)` on non-negative whole
    numbers, list.remove, and `sorted` on strings (code-point order). */
module Text {
  import opened Results
  import opened Sequences

  /** `s.startswith(prefix)` */
  predicate StartsWith(s: string, prefix: string) {
    |prefix| <= |s| && s[..|prefix|] == prefix
  }

  /** `q in s` for strings: `q` occurs as a contiguous piece of `s`. */
  predicate Contains(s: string, q: string) {
    StartsWith(s, q) || (s != [] && Contains(s[1..], q))
  }

  /** `s.find(c)`, with |s| for "absent". */
  function IndexOf(s: string, c: char): (k: nat)
    ensures k <= |s|
    ensures forall j :: 0 <= j < k ==> s[j] != c
    ensures k < |s| ==> s[k] == c
  {
    if s == [] then 0
    else if s[0] == c then 0
    else 1 + IndexOf(s[1..], c)
  }

  /** `sep.join(parts)` */
  function Join(sep: string, parts: seq<string>): (r: string)
    ensures |parts| == 1 ==> r == parts[0]
  {
    if |parts| == 0 then ""
    else if |parts| == 1 then parts[0]
    else parts[0] + sep + Join(sep, parts[1..])
  }

  /** Joining with no separator is concatenation: one more part appends it. */
  lemma {:induction false} JoinSnoc(parts: seq<string>, x: string)
    ensures Join("", parts + [x]) == Join("", parts) + x
  {
    if |parts| == 1 {
      assert parts + [x] == [parts[0], x];
      assert [parts[0], x][1..] == [x];
    } else if |parts| > 1 {
      assert (parts + [x])[1..] == parts[1..] + [x];
      JoinSnoc(parts[1..], x);
    }
  }

  /** `s.split(sep)` for a one-character separator: the pieces between
      separators, at least one (possibly empty) piece. */
  function Split(s: string, sep: char): (fields: seq<string>)
    ensures |fields| >= 1
    ensures forall i :: 0 <= i < |fields| ==> sep !in fields[i]
    ensures Join([sep], fields) == s
    decreases |s|
  {
    var k := IndexOf(s, sep);
    if k == |s| then
      assert forall j :: 0 <= j < |s| ==> s[j] != sep;
      [s]
    else
      var rest := Split(s[k + 1..], sep);
      assert forall j :: 0 <= j < k ==> s[..k][j] != sep;
      assert s == s[..k] + [sep] + s[k + 1..];
      [s[..k]] + rest
  }

  /** Splitting undoes joining when no piece contains the separator. */
  lemma {:induction false} SplitJoin(fields: seq<string>, sep: char)
    requires |fields| >= 1
    requires forall i :: 0 <= i < |fields| ==> sep !in fields[i]
    ensures Split(Join([sep], fields), sep) == fields
  {
    var s := Join([sep], fields);
    var k := IndexOf(s, sep);
    if |fields| == 1 {
      assert sep !in s;
      assert k == |s|;
    } else {
      var tail := Join([sep], fields[1..]);
      assert s == fields[0] + [sep] + tail;
      assert s[|fields[0]|] == sep;
      assert forall j :: 0 <= j < |fields[0]| ==> s[j] == fields[0][j];
      assert k == |fields[0]|;
      assert s[..k] == fields[0];
      assert s[k + 1..] == tail;
      SplitJoin(fields[1..], sep);
    }
  }

  /** A line as `readlines` yields it: non-empty, with `\n` at most at its end. */
  ghost predicate IsLine(l: string) {
    l != [] && forall j :: 0 <= j < |l| - 1 ==> l[j] != '\n'
  }

  /** `text.splitlines(keepends=True)` on `\n`, which is what `readlines`
      returns: every line but the last ends with `\n`, and together they spell
      the text. */
  function Lines(text: string): (ls: seq<string>)
    ensures forall i :: 0 <= i < |ls| ==> IsLine(ls[i])
    ensures Join("", ls) == text
    ensures forall i :: 0 <= i < |ls| - 1 ==> |ls[i]| > 0 && ls[i][|ls[i]| - 1] == '\n'
    decreases |text|
  {
    if text == [] then []
    else
      var k := IndexOf(text, '\n');
      if k == |text| then [text]
      else
        var rest := Lines(text[k + 1..]);
        assert text == text[..k + 1] + text[k + 1..];
        [text[..k + 1]] + rest
  }

  /** Reading back text made of whole lines gives those lines. */
  lemma {:induction false} LinesOfJoin(ls: seq<string>)
    requires forall i :: 0 <= i < |ls| ==> IsLine(ls[i]) && ls[i][|ls[i]| - 1] == '\n'
    ensures Lines(Join("", ls)) == ls
  {
    if ls != [] {
      var text := Join("", ls);
      var l := ls[0];
      var tail := Join("", ls[1..]);
      assert text == l + tail by {
        if |ls| == 1 { assert tail == ""; }
      }
      var k := IndexOf(text, '\n');
      assert text[|l| - 1] == '\n';
      assert forall j :: 0 <= j < |l| - 1 ==> text[j] == l[j];
      assert k == |l| - 1;
      assert text[..k + 1] == l;
      assert text[k + 1..] == tail;
      LinesOfJoin(ls[1..]);
    }
  }

  /** `s.rstrip('\n')` */
  function StripNewlines(s: string): (r: string)
    ensures |r| <= |s| && r == s[..|r|]
    ensures r == [] || r[|r| - 1] != '\n'
    ensures forall j :: |r| <= j < |s| ==> s[j] == '\n'
  {
    if s != [] && s[|s| - 1] == '\n' then StripNewlines(s[..|s| - 1]) else s
  }

  lemma StripNewlinesOfLine(l: string)
    requires '\n' !in l
    ensures StripNewlines(l + "\n") == l
  {
    assert (l + "\n")[..|l|] == l;
  }

  predicate IsDigit(c: char) {
    '0' <= c <= '9'
  }

  function DigitChar(d: nat): (c: char)
    requires d < 10
    ensures IsDigit(c)
  {
    (48 + d) as char
  }

  function DigitValue(c: char): nat
    requires IsDigit(c)
  {
    c as int - 48
  }

  /** `str(n)`: decimal digits without leading zeros. */
  function Decimal(n: nat): (r: string)
    ensures |r| >= 1
    ensures forall j :: 0 <= j < |r| ==> IsDigit(r[j])
    ensures |r| > 1 ==> r[0] != '0'
  {
    if n < 10 then [DigitChar(n)] else Decimal(n / 10) + [DigitChar(n % 10)]
  }

  function DigitsValue(s: string): nat
    requires forall j :: 0 <= j < |s| ==> IsDigit(s[j])
  {
    if s == [] then 0 else DigitsValue(s[..|s| - 1]) * 10 + DigitValue(s[|s| - 1])
  }

  /** Reading a whole number written in decimal; anything else is a
      ValueError. */
  function ParseNat(s: string): (r: Option<nat>)
    ensures r.Some? <==> s != [] && forall j :: 0 <= j < |s| ==> IsDigit(s[j])
  {
    if s != [] && forall j | 0 <= j < |s| :: IsDigit(s[j]) then Some(DigitsValue(s)) else None
  }

  /** Reading a number back from its decimal text gives the number. */
  lemma {:induction false} ParseDecimal(n: nat)
    ensures ParseNat(Decimal(n)) == Some(n)
  {
    var r := Decimal(n);
    if n < 10 {
      assert r[..0] == [];
      assert DigitValue(r[0]) == n;
      assert DigitsValue(r) == n;
    } else {
      ParseDecimal(n / 10);
      assert r[..|r| - 1] == Decimal(n / 10);
      assert DigitValue(r[|r| - 1]) == n % 10;
    }
  }

  /** Python's `<=` on strings: code-point lexicographic order. */
  predicate LexLe(a: string, b: string) {
    a == [] || (b != [] && (a[0] < b[0] || (a[0] == b[0] && LexLe(a[1..], b[1..]))))
  }

  lemma {:induction false} LexLeTotal(a: string, b: string)
    ensures LexLe(a, b) || LexLe(b, a)
  {
    if a != [] && b != [] && a[0] == b[0] {
      LexLeTotal(a[1..], b[1..]);
    }
  }

  lemma {:induction false} LexLeAntisymmetric(a: string, b: string)
    requires LexLe(a, b) && LexLe(b, a)
    ensures a == b
  {
    if a != [] && b != [] {
      LexLeAntisymmetric(a[1..], b[1..]);
      assert a == [a[0]] + a[1..];
      assert b == [b[0]] + b[1..];
    }
  }

  ghost predicate Sorted(s: seq<string>) {
    forall i :: 0 < i < |s| ==> LexLe(s[i - 1], s[i])
  }

  function Insert(x: string, s: seq<string>): (r: seq<string>)
  {
    if s == [] then [x]
    else if LexLe(x, s[0]) then [x] + s
    else [s[0]] + Insert(x, s[1..])
  }

  /** Inserting adds one occurrence of `x` and keeps a sorted list sorted. */
  lemma {:induction false} InsertSpec(x: string, s: seq<string>)
    ensures multiset(Insert(x, s)) == multiset(s) + multiset{x}
    ensures |Insert(x, s)| == |s| + 1
    ensures Insert(x, s)[0] == x || (s != [] && Insert(x, s)[0] == s[0])
    ensures Sorted(s) ==> Sorted(Insert(x, s))
  {
    if s != [] && !LexLe(x, s[0]) {
      LexLeTotal(x, s[0]);
      InsertSpec(x, s[1..]);
      assert s == [s[0]] + s[1..];
    }
  }

  /** `sorted(s)` on a list of strings. */
  function Sort(s: seq<string>): (r: seq<string>)
  {
    if s == [] then [] else Insert(s[0], Sort(s[1..]))
  }

  /** `sorted` returns a sorted permutation of its input. */
  lemma {:induction false} SortSpec(s: seq<string>)
    ensures Sorted(Sort(s))
    ensures multiset(Sort(s)) == multiset(s)
  {
    if s != [] {
      SortSpec(s[1..]);
      InsertSpec(s[0], Sort(s[1..]));
      assert s == [s[0]] + s[1..];
    }
  }

  /** `s.remove(x)` with its ValueError ignored: the first occurrence of `x`
      is dropped and the rest keep their order; without `x` the list stays. */
  function RemoveFirst(s: seq<string>, x: string): (r: seq<string>)
    ensures x !in s ==> r == s
    ensures x in s ==> r == s[..FirstIndex(s, x)] + s[FirstIndex(s, x) + 1..]
  {
    var k := FirstMatch(s, y => y == x);
    if k == |s| then s
    else
      assert s == s[..k] + [x] + s[k + 1..];
      s[..k] + s[k + 1..]
  }

  /** Removing drops exactly one occurrence. */
  lemma RemoveFirstMultiset(s: seq<string>, x: string)
    requires x in s
    ensures multiset(RemoveFirst(s, x)) == multiset(s) - multiset{x}
  {
    var k := FirstIndex(s, x);
    assert s == s[..k] + [x] + s[k + 1..];
  }
}
