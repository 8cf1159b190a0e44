/** The handful of Python `str` operations the tools rely on, stated over
    `seq<char>`: `strip()`, `split(sep)`, `splitlines()`, `split()`,
    `lower()`, `replace(c, ...)`, `in` and the base-ten `int()` parse. */
module Text {
  import opened Common

  /** Python's `str.isspace()` on a single character. */
  predicate IsSpace(c: char)
  {
    var n := c as int;
    || (9 <= n <= 13) || (28 <= n <= 32) || n == 0x85 || n == 0xA0
    || n == 0x1680 || (0x2000 <= n <= 0x200A) || n == 0x2028 || n == 0x2029
    || n == 0x202F || n == 0x205F || n == 0x3000
  }

  /** No whitespace at either end: what `strip()` leaves behind. */
  predicate IsTrimmed(s: string)
  {
    |s| == 0 || (!IsSpace(s[0]) && !IsSpace(s[|s| - 1]))
  }

  predicate IsBlank(s: string)
  {
    forall i :: 0 <= i < |s| ==> IsSpace(s[i])
  }

  function TrimLeft(s: string): (r: string)
    ensures |r| <= |s| && r == s[|s| - |r|..]
    ensures forall i :: 0 <= i < |s| - |r| ==> IsSpace(s[i])
    ensures |r| > 0 ==> !IsSpace(r[0])
    decreases |s|
  {
    if |s| > 0 && IsSpace(s[0]) then TrimLeft(s[1..]) else s
  }

  function TrimRight(s: string): (r: string)
    ensures |r| <= |s| && r == s[..|r|]
    ensures forall i :: |r| <= i < |s| ==> IsSpace(s[i])
    ensures |r| > 0 ==> !IsSpace(r[|r| - 1])
    decreases |s|
  {
    if |s| > 0 && IsSpace(s[|s| - 1]) then TrimRight(s[..|s| - 1]) else s
  }

  /** Python's `str.strip()`: drop the whitespace at both ends. */
  function Trim(s: string): (r: string)
    ensures IsTrimmed(r)
    ensures |r| <= |s|
    ensures r == "" <==> IsBlank(s)
    ensures IsTrimmed(s) ==> r == s
  {
    var l := TrimLeft(s);
    var r := TrimRight(l);
    assert |r| > 0 ==> r[0] == l[0];
    r
  }

  /** Stripping never drops a character that is not whitespace. */
  lemma TrimKeepsInner(s: string, i: nat)
    requires i < |s| && !IsSpace(s[i])
    ensures s[i] in Trim(s)
  {
    var l := TrimLeft(s);
    var k := |s| - |l|;
    assert i >= k;
    assert l[i - k] == s[i];
    var r := TrimRight(l);
    assert i - k < |r|;
    assert r[i - k] == s[i];
  }

  /** Python's `s.split(sep)` for a one-character separator: one piece more
      than there are separators, none of them containing the separator. */
  function Split(s: string, sep: char): (r: seq<string>)
    ensures |r| >= 1
    ensures forall i :: 0 <= i < |r| ==> sep !in r[i]
    ensures sep !in s ==> r == [s]
    ensures sep in s ==> |r| >= 2
    decreases |s|
  {
    if |s| == 0 then [""]
    else
      var rest := Split(s[1..], sep);
      if s[0] == sep then [""] + rest
      else
        assert sep !in s ==> rest == [s[1..]] && [s[0]] + s[1..] == s by {
          if sep !in s {
            assert forall k :: 0 <= k < |s[1..]| ==> s[1..][k] == s[k + 1];
          }
        }
        assert sep in s ==> sep in s[1..] by {
          if sep in s {
            var k :| 0 <= k < |s| && s[k] == sep;
            assert s[1..][k - 1] == sep;
          }
        }
        [[s[0]] + rest[0]] + rest[1..]
  }

  /** Python's `sep.join(parts)`. */
  function Join(parts: seq<string>, sep: char): string
    decreases |parts|
  {
    if |parts| == 0 then ""
    else if |parts| == 1 then parts[0]
    else parts[0] + [sep] + Join(parts[1..], sep)
  }

  /** Joining the pieces of a split gives back the original text. */
  lemma {:induction false} JoinSplit(s: string, sep: char)
    ensures Join(Split(s, sep), sep) == s
    decreases |s|
  {
    if |s| > 0 {
      var rest := Split(s[1..], sep);
      JoinSplit(s[1..], sep);
      if s[0] == sep {
        assert Split(s, sep) == [""] + rest;
        assert ([""] + rest)[1..] == rest;
      } else {
        var r := [[s[0]] + rest[0]] + rest[1..];
        assert Split(s, sep) == r;
        if |rest| == 1 {
          assert s == [s[0]] + s[1..];
        } else {
          assert r[1..] == rest[1..];
          assert Join(rest, sep) == rest[0] + [sep] + Join(rest[1..], sep);
          assert s == [s[0]] + s[1..];
        }
      }
    }
  }

  /** A separator-free prefix followed by the separator splits off as one piece. */
  lemma {:induction false} SplitAfterPiece(a: string, sep: char, b: string)
    requires sep !in a
    ensures Split(a + [sep] + b, sep) == [a] + Split(b, sep)
    decreases |a|
  {
    var s := a + [sep] + b;
    if |a| == 0 {
      assert s == [sep] + b;
      assert s[1..] == b;
    } else {
      assert s[1..] == a[1..] + [sep] + b;
      SplitAfterPiece(a[1..], sep, b);
      assert [s[0]] + a[1..] == a;
    }
  }

  /** Splitting a join of separator-free pieces recovers the pieces. */
  lemma {:induction false} SplitJoin(parts: seq<string>, sep: char)
    requires |parts| >= 1
    requires forall i :: 0 <= i < |parts| ==> sep !in parts[i]
    ensures Split(Join(parts, sep), sep) == parts
    decreases |parts|
  {
    if |parts| > 1 {
      SplitJoin(parts[1..], sep);
      SplitAfterPiece(parts[0], sep, Join(parts[1..], sep));
      assert parts == [parts[0]] + parts[1..];
    }
  }

  /** Python's `str.splitlines()` for text whose only line terminator is
      '\n': a final terminator does not open an extra empty line. */
  function Lines(s: string): (r: seq<string>)
    ensures forall i :: 0 <= i < |r| ==> '\n' !in r[i]
    ensures r == [] <==> s == ""
  {
    if |s| == 0 then []
    else
      var parts := Split(s, '\n');
      if s[|s| - 1] == '\n' then parts[..|parts| - 1] else parts
  }

  /** Two newline-free lines, the second not ending in a terminator, read back as themselves. */
  lemma TwoLines(a: string, b: string)
    requires '\n' !in a && '\n' !in b && |b| > 0
    ensures Lines(a + "\n" + b) == [a, b]
  {
    var s := a + "\n" + b;
    assert s == a + ['\n'] + b;
    SplitAfterPiece(a, '\n', b);
    assert s[|s| - 1] == b[|b| - 1];
  }

  /** A newline-free first line splits off in front of the lines that follow it. */
  lemma LinesAfterPiece(a: string, b: string)
    requires '\n' !in a && |b| > 0 && b[|b| - 1] != '\n'
    ensures Lines(a + "\n" + b) == [a] + Lines(b)
  {
    var s := a + "\n" + b;
    assert s == a + ['\n'] + b;
    SplitAfterPiece(a, '\n', b);
    assert s[|s| - 1] == b[|b| - 1];
  }

  predicate IsWord(w: string)
  {
    |w| > 0 && forall j :: 0 <= j < |w| ==> !IsSpace(w[j])
  }

  /** Python's `str.split()` with no argument: the maximal runs of
      non-whitespace characters, in order. */
  function Words(s: string): (r: seq<string>)
    ensures forall i :: 0 <= i < |r| ==> IsWord(r[i])
    ensures r == [] <==> IsBlank(s)
    ensures |s| > 0 && !IsSpace(s[0]) ==> |r| > 0 && |r[0]| > 0 && r[0][0] == s[0]
    decreases |s|
  {
    if |s| == 0 then []
    else
      var rest := Words(s[1..]);
      assert IsBlank(s) <==> IsSpace(s[0]) && IsBlank(s[1..]) by {
        if IsSpace(s[0]) && IsBlank(s[1..]) {
          forall i | 0 <= i < |s| ensures IsSpace(s[i]) {
            if i > 0 { assert s[i] == s[1..][i - 1]; }
          }
        }
      }
      if IsSpace(s[0]) then rest
      else if |s| > 1 && !IsSpace(s[1]) then [[s[0]] + rest[0]] + rest[1..]
      else [[s[0]]] + rest
  }

  /** A word followed by nothing or by whitespace is one whole token: it is
      not cut short and does not run into what follows. */
  lemma {:induction false} WordsAfterWord(w: string, t: string)
    requires IsWord(w)
    requires t == "" || IsSpace(t[0])
    ensures Words(w + t) == [w] + Words(t)
    decreases |w|
  {
    var s := w + t;
    assert s[1..] == w[1..] + t;
    if |w| > 1 {
      WordsAfterWord(w[1..], t);
      assert s[1] == w[1];
      assert [s[0]] + w[1..] == w;
    } else {
      assert |s| > 1 ==> s[1] == t[0];
      assert [s[0]] == w;
    }
  }

  /** Leading whitespace, however long, contributes no token. */
  lemma {:induction false} WordsAfterBlank(b: string, t: string)
    requires IsBlank(b)
    ensures Words(b + t) == Words(t)
    decreases |b|
  {
    if |b| > 0 {
      assert (b + t)[1..] == b[1..] + t;
      assert IsBlank(b[1..]) by {
        forall i | 0 <= i < |b[1..]| ensures IsSpace(b[1..][i]) {
          assert b[1..][i] == b[i + 1];
        }
      }
      WordsAfterBlank(b[1..], t);
    } else {
      assert b + t == t;
    }
  }

  /** Splitting at whitespace distributes over two pieces when whitespace
      stands at the seam, so no token straddles it. */
  lemma {:induction false} WordsAppend(a: string, t: string)
    requires a == "" || t == "" || IsSpace(a[|a| - 1]) || IsSpace(t[0])
    ensures Words(a + t) == Words(a) + Words(t)
    decreases |a|
  {
    if |a| == 0 {
      assert a + t == t;
    } else {
      var s := a + t;
      var tail := a[1..];
      assert s[1..] == tail + t;
      assert s[0] == a[0];
      if |a| == 1 {
        WordsHeadAlone(a, t);
      } else {
        assert a[|a| - 1] == tail[|tail| - 1];
        WordsAppend(tail, t);
        assert s[1] == a[1];
        assert tail[0] == a[1];
        WordsStep(a, t, Words(tail));
      }
    }
  }

  /** The three ways `Words` takes one step. */
  lemma WordsSkipSpace(s: string)
    requires |s| > 0 && IsSpace(s[0])
    ensures Words(s) == Words(s[1..])
  {
  }

  lemma WordsEndToken(s: string)
    requires |s| > 0 && !IsSpace(s[0]) && (|s| == 1 || IsSpace(s[1]))
    ensures Words(s) == [[s[0]]] + Words(s[1..])
  {
  }

  lemma WordsGrowToken(s: string)
    requires |s| > 1 && !IsSpace(s[0]) && !IsSpace(s[1])
    ensures Words(s) == [[s[0]] + Words(s[1..])[0]] + Words(s[1..])[1..]
  {
  }

  /** The one-character case of `WordsAppend`. */
  lemma WordsHeadAlone(a: string, t: string)
    requires |a| == 1
    requires t == "" || IsSpace(a[0]) || IsSpace(t[0])
    ensures Words(a + t) == Words(a) + Words(t)
  {
    var s := a + t;
    assert s[1..] == t;
    assert a[1..] == "";
    if IsSpace(a[0]) {
      WordsSkipSpace(s);
      WordsSkipSpace(a);
    } else {
      assert |s| > 1 ==> s[1] == t[0];
      WordsEndToken(s);
      WordsEndToken(a);
    }
  }

  /** The longer case of `WordsAppend`, once it holds for the tail. */
  lemma WordsStep(a: string, t: string, w: seq<string>)
    requires |a| > 1
    requires w == Words(a[1..])
    requires Words((a + t)[1..]) == w + Words(t)
    requires (a + t)[0] == a[0] && (a + t)[1] == a[1]
    ensures Words(a + t) == Words(a) + Words(t)
  {
    if IsSpace(a[0]) {
      WordsSkipSpace(a + t);
      WordsSkipSpace(a);
    } else if IsSpace(a[1]) {
      WordsEndToken(a + t);
      WordsEndToken(a);
    } else {
      WordsGrowToken(a + t);
      WordsGrowToken(a);
      assert a[1..][0] == a[1];
      GlueFirst(a[0], w, Words(t));
    }
  }

  /** Gluing a character onto the first token commutes with appending more tokens. */
  lemma GlueFirst(c: char, w: seq<string>, u: seq<string>)
    requires |w| > 0
    ensures [[c] + (w + u)[0]] + (w + u)[1..] == ([[c] + w[0]] + w[1..]) + u
  {
    assert (w + u)[1..] == w[1..] + u;
  }

  /** Text ending in a word and then only whitespace has that word as its last token. */
  lemma WordsEndWith(front: string, w: string, trailing: string)
    requires front == "" || IsSpace(front[|front| - 1])
    requires IsWord(w) && IsBlank(trailing)
    ensures Words(front + w + trailing) == Words(front) + [w]
  {
    WordsAfterWord(w, trailing);
    assert Words(trailing) == [];
    WordsAppend(front, w + trailing);
    assert front + (w + trailing) == front + w + trailing;
  }

  /** `"ab".split() == ["ab"]`: a single word is its own only token. */
  lemma WordsOfWord(w: string)
    requires IsWord(w)
    ensures Words(w) == [w]
  {
    WordsAfterWord(w, "");
    assert w + "" == w;
  }

  /** Python's `needle in hay` on strings. */
  predicate Contains(hay: string, needle: string)
    decreases |hay|
  {
    needle <= hay || (|hay| > 0 && Contains(hay[1..], needle))
  }

  /** Lower-casing of one character; only 'A'..'Z' are mapped. */
  function LowerChar(c: char): char
  {
    if 'A' <= c <= 'Z' then (c as int + 32) as char else c
  }

  /** Python's `str.lower()` restricted to ASCII letters. */
  function Lower(s: string): (r: string)
    ensures |r| == |s|
    ensures forall i :: 0 <= i < |s| ==> r[i] == LowerChar(s[i])
  {
    seq(|s|, i requires 0 <= i < |s| => LowerChar(s[i]))
  }

  /** `s.replace(c, "")`: every occurrence of `c` removed, the rest kept in order. */
  function RemoveChar(s: string, c: char): (r: string)
    ensures |r| <= |s|
    decreases |s|
  {
    if |s| == 0 then ""
    else
      assert s == [s[0]] + s[1..];
      (if s[0] == c then "" else [s[0]]) + RemoveChar(s[1..], c)
  }

  /** Removing an absent character changes nothing. */
  lemma {:induction false} RemoveCharAbsent(s: string, c: char)
    requires c !in s
    ensures RemoveChar(s, c) == s
    decreases |s|
  {
    if |s| > 0 {
      assert c !in s[1..];
      RemoveCharAbsent(s[1..], c);
      assert s == [s[0]] + s[1..];
    }
  }

  /** Removal drops exactly the removed character and keeps every other one. */
  lemma {:induction false} RemoveCharKeeps(s: string, c: char, x: char)
    ensures x in RemoveChar(s, c) <==> x in s && x != c
    decreases |s|
  {
    if |s| > 0 {
      RemoveCharKeeps(s[1..], c, x);
      assert s == [s[0]] + s[1..];
    }
  }

  /** Removal works piece by piece. */
  lemma {:induction false} RemoveCharAppend(a: string, b: string, c: char)
    ensures RemoveChar(a + b, c) == RemoveChar(a, c) + RemoveChar(b, c)
    decreases |a|
  {
    if |a| == 0 {
      assert a + b == b;
    } else {
      var t := a[1..];
      var head := if a[0] == c then "" else [a[0]];
      assert RemoveChar(a + b, c) == head + RemoveChar(t + b, c) by {
        assert a + b == [a[0]] + (t + b);
        RemoveCharCons(a[0], t + b, c);
      }
      assert RemoveChar(a, c) == head + RemoveChar(t, c) by {
        assert a == [a[0]] + t;
        RemoveCharCons(a[0], t, c);
      }
      RemoveCharAppend(t, b, c);
      var x, y := RemoveChar(t, c), RemoveChar(b, c);
      assert head + (x + y) == (head + x) + y;
    }
  }

  /** Removing a character that lower-casing never produces or changes
      commutes with lower-casing. */
  lemma {:induction false} LowerRemoveChar(s: string, c: char)
    requires !('A' <= c <= 'Z') && !('a' <= c <= 'z')
    ensures Lower(RemoveChar(s, c)) == RemoveChar(Lower(s), c)
    decreases |s|
  {
    if |s| > 0 {
      var t := s[1..];
      LowerRemoveChar(t, c);
      var head := if s[0] == c then "" else [s[0]];
      RemoveCharCons(s[0], t, c);
      LowerAppend(head, RemoveChar(t, c));
      assert s == [s[0]] + t;
      LowerAppend([s[0]], t);
      RemoveCharCons(LowerChar(s[0]), Lower(t), c);
      assert LowerChar(s[0]) == c <==> s[0] == c;
    }
  }

  lemma RemoveCharCons(x: char, t: string, c: char)
    ensures RemoveChar([x] + t, c) == (if x == c then "" else [x]) + RemoveChar(t, c)
  {
    assert ([x] + t)[1..] == t;
  }

  /** Lower-casing works piece by piece. */
  lemma LowerAppend(a: string, b: string)
    ensures Lower(a + b) == Lower(a) + Lower(b)
  {
  }

  /** Lower-casing twice is lower-casing once. */
  lemma LowerIdempotent(s: string)
    ensures Lower(Lower(s)) == Lower(s)
  {
  }

  /** Whatever contains a text contains each of its prefixes. */
  lemma {:induction false} ContainsPrefix(hay: string, a: string, b: string)
    requires Contains(hay, a + b)
    ensures Contains(hay, a)
    decreases |hay|
  {
    if a + b <= hay {
      assert a <= hay by {
        assert forall k :: 0 <= k < |a| ==> (a + b)[k] == a[k];
      }
    } else {
      ContainsPrefix(hay[1..], a, b);
    }
  }

  /** `s.replace(a, b)` for single characters. */
  function ReplaceChar(s: string, a: char, b: char): (r: string)
    ensures |r| == |s|
    ensures forall i :: 0 <= i < |s| ==> r[i] == (if s[i] == a then b else s[i])
  {
    seq(|s|, i requires 0 <= i < |s| => if s[i] == a then b else s[i])
  }

  predicate IsDigit(c: char)
  {
    '0' <= c <= '9'
  }

  predicate AllDigits(s: string)
  {
    forall i :: 0 <= i < |s| ==> IsDigit(s[i])
  }

  function DigitValue(c: char): nat
    requires IsDigit(c)
  {
    c as int - '0' as int
  }

  function DigitChar(d: nat): (c: char)
    requires d < 10
    ensures IsDigit(c) && DigitValue(c) == d
  {
    ('0' as int + d) as char
  }

  /** The decimal value of a string of ASCII digits, most significant first. */
  function DigitsValue(s: string): nat
    requires AllDigits(s)
    decreases |s|
  {
    if |s| == 0 then 0 else DigitsValue(s[..|s| - 1]) * 10 + DigitValue(s[|s| - 1])
  }

  /** A sign-optional run of ASCII digits, already stripped. */
  function ParseSigned(t: string): (r: Option<int>)
    ensures r.Some? ==> |t| > 0
  {
    if |t| > 0 && (t[0] == '-' || t[0] == '+') then
      var d := t[1..];
      if |d| > 0 && AllDigits(d) then
        var v: int := DigitsValue(d);
        Some(if t[0] == '-' then -v else v)
      else None
    else if |t| > 0 && AllDigits(t) then Some(DigitsValue(t))
    else None
  }

  /** Python's `int(s)` in base ten: surrounding whitespace is ignored, an
      optional sign is allowed, and at least one ASCII digit must follow.
      Anything else is a `ValueError`, modelled as `None`. */
  function ParseInt(s: string): (r: Option<int>)
    ensures IsBlank(s) ==> r == None
  {
    ParseSigned(Trim(s))
  }

  /** `int()` rejects any text holding a character that is neither
      whitespace, a sign nor an ASCII digit (a letter, a dot, a comma). */
  lemma ParseIntRejects(s: string, i: nat)
    requires i < |s| && !IsSpace(s[i]) && !IsDigit(s[i]) && s[i] != '-' && s[i] != '+'
    ensures ParseInt(s) == None
  {
    TrimKeepsInner(s, i);
    var t := Trim(s);
    var j :| 0 <= j < |t| && t[j] == s[i];
    if |t| > 0 && (t[0] == '-' || t[0] == '+') {
      if j > 0 {
        assert t[1..][j - 1] == t[j];
      }
    }
  }

  /** A digit string with no surrounding whitespace reads as its decimal value. */
  lemma ParseIntDigits(s: string)
    requires |s| > 0 && AllDigits(s)
    ensures ParseInt(s) == Some(DigitsValue(s))
  {
    assert IsTrimmed(s) by { assert IsDigit(s[0]) && IsDigit(s[|s| - 1]); }
  }

  /** Decimal rendering of a natural number, without leading zeros. */
  function ShowNat(n: nat): (r: string)
    ensures |r| > 0 && AllDigits(r)
    decreases n
  {
    if n < 10 then [DigitChar(n)] else ShowNat(n / 10) + [DigitChar(n % 10)]
  }

  /** Decimal rendering of an integer, with a leading '-' when negative. */
  function ShowInt(n: int): string
  {
    if n < 0 then "-" + ShowNat(-n) else ShowNat(n)
  }

  lemma {:induction false} DigitsValueShowNat(n: nat)
    ensures DigitsValue(ShowNat(n)) == n
    decreases n
  {
    if n >= 10 {
      DigitsValueShowNat(n / 10);
      var s := ShowNat(n);
      assert s[..|s| - 1] == ShowNat(n / 10);
    }
  }

  /** A '-' followed by a digit string reads as the negated value. */
  lemma ParseIntNegative(d: string, v: nat)
    requires |d| > 0 && AllDigits(d) && DigitsValue(d) == v
    ensures ParseInt("-" + d) == Some(-(v as int))
  {
    SignedDigitsTrimmed(d);
    ParseSignedNegative(d);
  }

  lemma ParseSignedNegative(d: string)
    requires |d| > 0 && AllDigits(d)
    ensures ParseSigned("-" + d) == Some(-(DigitsValue(d) as int))
  {
    assert ("-" + d)[1..] == d;
  }

  lemma SignedDigitsTrimmed(d: string)
    requires |d| > 0 && AllDigits(d)
    ensures IsTrimmed("-" + d)
  {
    var s := "-" + d;
    assert s[|s| - 1] == d[|d| - 1];
  }

  /** `int()` reads back every integer's decimal rendering. */
  lemma ParseIntShowInt(n: int)
    ensures ParseInt(ShowInt(n)) == Some(n)
  {
    if n < 0 {
      ParseIntShowNegative(n);
    } else {
      ParseIntShowNat(n);
    }
  }

  lemma ParseIntShowNat(m: nat)
    ensures ParseInt(ShowNat(m)) == Some(m)
  {
    ParseIntDigits(ShowNat(m));
    DigitsValueShowNat(m);
  }

  lemma ParseIntShowNegative(n: int)
    requires n < 0
    ensures ParseInt(ShowInt(n)) == Some(n)
  {
    var m: nat := -n;
    var d := ShowNat(m);
    assert ShowInt(n) == "-" + d;
    DigitsValueShowNat(m);
    ParseIntNegative(d, m);
  }

}
