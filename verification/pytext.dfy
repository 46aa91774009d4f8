/** The Python 2 `str` built-ins that arduino.py relies on: `strip()`, `split(sep)`,
    `split()`, `replace(c, '')`, `filter(None, ...)` and `int(s)`, with `join` and
    `str(n)` as the inverses of `split(sep)` and `int(s)`, used to state round trips.
    A Python 2 `str` is a byte string; here it is a `string`. A byte string is one whose
    characters are all below 256, and every function here accepts any string, so it
    covers all byte strings. */
module PyText {

  datatype Option<T> = None | Some(value: T)

  /** C-locale `isspace`: the whitespace of Python 2's `str.strip()`, `str.split()` and `int()`. */
  predicate IsSpace(c: char)
  {
    c == ' ' || c == '\t' || c == '\n' || c == '\r' || c == '\U{0B}' || c == '\U{0C}'
  }

  /** `s` holds no whitespace: it is one piece of `split()`'s cut. */
  predicate NoSpace(s: string)
  {
    Unseparated(s, Whitespace)
  }

  /** `s.lstrip()` */
  function StripLeft(s: string): string
  {
    if s != [] && IsSpace(s[0]) then StripLeft(s[1..]) else s
  }

  /** `s.lstrip()` is the suffix of `s` left once its leading whitespace is gone. */
  lemma {:induction false} StripLeftSpec(s: string)
    ensures var r := StripLeft(s);
      && |r| <= |s| && r == s[|s| - |r|..]
      && (r == [] || !IsSpace(r[0]))
      && (forall i :: 0 <= i < |s| - |r| ==> IsSpace(s[i]))
  {
    if s != [] && IsSpace(s[0]) {
      var t := s[1..];
      StripLeftSpec(t);
      var r := StripLeft(t);
      assert StripLeft(s) == r;
      TailSuffix(s, |r|);
      forall i | 0 <= i < |s| - |r| ensures IsSpace(s[i]) {
        if i > 0 {
          assert s[i] == t[i - 1];
        }
      }
    }
  }

  /** A suffix of the tail of `s` is the suffix of `s` of the same length. */
  lemma {:induction false} TailSuffix<T>(s: seq<T>, k: int)
    requires 0 <= k < |s|
    ensures s[1..][|s| - 1 - k..] == s[|s| - k..]
  {
  }

  /** `s.rstrip()` */
  function StripRight(s: string): string
  {
    if s != [] && IsSpace(s[|s| - 1]) then StripRight(s[..|s| - 1]) else s
  }

  /** `s.rstrip()` is the prefix of `s` left once its trailing whitespace is gone. */
  lemma {:induction false} StripRightSpec(s: string)
    ensures var r := StripRight(s);
      && |r| <= |s| && r == s[..|r|]
      && (r == [] || !IsSpace(r[|r| - 1]))
      && (forall i :: |r| <= i < |s| ==> IsSpace(s[i]))
  {
    if s != [] && IsSpace(s[|s| - 1]) {
      var t := s[..|s| - 1];
      StripRightSpec(t);
      var r := StripRight(s);
      assert t[..|r|] == s[..|r|];
      forall i | |r| <= i < |s| ensures IsSpace(s[i]) {
        if i < |s| - 1 {
          assert s[i] == t[i];
        }
      }
    }
  }

  /** `s.strip()`: the text between the leading and the trailing whitespace. */
  function Strip(s: string): string
  {
    StripRight(StripLeft(s))
  }

  /** `s.strip()` neither starts nor ends with whitespace, and a string without
      whitespace at either end is its own `strip()`. */
  lemma StripSpec(s: string)
    ensures var r := Strip(s);
      && |r| <= |s|
      && (r == [] || (!IsSpace(r[0]) && !IsSpace(r[|r| - 1])))
      && ((s == [] || (!IsSpace(s[0]) && !IsSpace(s[|s| - 1]))) ==> r == s)
  {
    var l := StripLeft(s);
    StripLeftSpec(s);
    StripRightSpec(l);
    var r := StripRight(l);
    if r != [] {
      assert r[0] == l[0];
    }
    if s == [] || (!IsSpace(s[0]) && !IsSpace(s[|s| - 1])) {
      assert l == s;
    }
  }

  /** A character absent from `s` is absent from `s.strip()`. */
  lemma StripLacks(s: string, c: char)
    requires c !in s
    ensures c !in Strip(s)
  {
    var l := StripLeft(s);
    StripLeftSpec(s);
    assert forall x :: x in s[|s| - |l|..] ==> x in s;
    var r := StripRight(l);
    StripRightSpec(l);
    assert forall x :: x in l[..|r|] ==> x in l;
  }

  /** What separates the pieces of a split: one given character (`s.split(c)`)
      or any whitespace character (the pieces behind `s.split()`). */
  datatype Separator = Char(c: char) | Whitespace

  predicate Separates(d: Separator, c: char)
  {
    match d
    case Char(x) => c == x
    case Whitespace => IsSpace(c)
  }

  predicate Unseparated(s: string, d: Separator)
  {
    forall i :: 0 <= i < |s| ==> !Separates(d, s[i])
  }

  /** Cuts `s` at every separator character, keeping empty pieces: for `Char(c)`
      this is Python's `s.split(c)`. */
  function SplitOn(s: string, d: Separator): (r: seq<string>)
    ensures |r| >= 1
  {
    if s == [] then [[]]
    else
      var rest := SplitOn(s[1..], d);
      if Separates(d, s[0]) then [[]] + rest else [[s[0]] + rest[0]] + rest[1..]
  }

  /** No piece of a split holds a separator. */
  lemma {:induction false} SplitOnUnseparated(s: string, d: Separator)
    ensures forall i :: 0 <= i < |SplitOn(s, d)| ==> Unseparated(SplitOn(s, d)[i], d)
  {
    if s != [] {
      SplitOnUnseparated(s[1..], d);
      var rest := SplitOn(s[1..], d);
      if !Separates(d, s[0]) {
        var first := [s[0]] + rest[0];
        assert Unseparated(rest[0], d);
        forall j | 0 <= j < |first| ensures !Separates(d, first[j]) {
          if j > 0 {
            assert first[j] == rest[0][j - 1];
          }
        }
      }
    }
  }

  /** `sep.join(ps)` */
  function Join(ps: seq<string>, sep: char): string
  {
    if ps == [] then [] else if |ps| == 1 then ps[0] else ps[0] + [sep] + Join(ps[1..], sep)
  }

  /** Splitting on a character and joining the pieces back with it gives the string back. */
  lemma {:induction false} JoinSplit(s: string, c: char)
    ensures Join(SplitOn(s, Char(c)), c) == s
  {
    if s != [] {
      JoinSplit(s[1..], c);
      var rest := SplitOn(s[1..], Char(c));
      if s[0] == c {
        assert ([[]] + rest)[1..] == rest;
      } else if |rest| > 1 {
        assert ([[s[0]] + rest[0]] + rest[1..])[1..] == rest[1..];
      }
    }
  }

  /** A separator-free prefix glues onto the first piece of what follows it. */
  lemma {:induction false} SplitOnPrefix(a: string, b: string, d: Separator)
    requires Unseparated(a, d)
    ensures SplitOn(a + b, d) == [a + SplitOn(b, d)[0]] + SplitOn(b, d)[1..]
  {
    if a != [] {
      var sb := SplitOn(b, d);
      assert (a + b)[0] == a[0] && !Separates(d, a[0]);
      assert (a + b)[1..] == a[1..] + b;
      assert Unseparated(a[1..], d) by {
        forall i | 0 <= i < |a[1..]| ensures !Separates(d, a[1..][i]) {
          assert a[1..][i] == a[i + 1];
        }
      }
      SplitOnPrefix(a[1..], b, d);
      var rest := SplitOn(a[1..] + b, d);
      assert rest == [a[1..] + sb[0]] + sb[1..];
      assert SplitOn(a + b, d) == [[a[0]] + rest[0]] + rest[1..];
      assert rest[0] == a[1..] + sb[0] && rest[1..] == sb[1..];
      assert [a[0]] + (a[1..] + sb[0]) == a + sb[0];
    } else {
      var sb := SplitOn(b, d);
      assert a + b == b && a + sb[0] == sb[0];
      assert sb == [sb[0]] + sb[1..];
    }
  }

  /** Splitting undoes joining, when the pieces hold no separator and the joining
      character is one. */
  lemma {:induction false} SplitJoin(ps: seq<string>, sep: char, d: Separator)
    requires |ps| >= 1 && Separates(d, sep)
    requires forall i :: 0 <= i < |ps| ==> Unseparated(ps[i], d)
    ensures SplitOn(Join(ps, sep), d) == ps
  {
    if |ps| == 1 {
      SplitOnPrefix(ps[0], [], d);
      assert ps[0] + [] == ps[0];
    } else {
      var tail := Join(ps[1..], sep);
      SplitJoin(ps[1..], sep, d);
      assert ([sep] + tail)[0] == sep && ([sep] + tail)[1..] == tail;
      assert SplitOn([sep] + tail, d) == [[]] + ps[1..];
      assert Join(ps, sep) == ps[0] + ([sep] + tail);
      SplitOnPrefix(ps[0], [sep] + tail, d);
      assert ps[0] + [] == ps[0];
      assert ps == [ps[0]] + ps[1..];
    }
  }

  /** A character absent from `s` is absent from every piece cut from it. */
  lemma {:induction false} SplitOnLacks(s: string, d: Separator, c: char)
    requires c !in s
    ensures forall i :: 0 <= i < |SplitOn(s, d)| ==> c !in SplitOn(s, d)[i]
  {
    if s != [] {
      assert c !in s[1..] by {
        assert forall x :: x in s[1..] ==> x in s;
      }
      SplitOnLacks(s[1..], d, c);
    }
  }

  /** A character that is neither in any piece nor the joining character is absent
      from the joined string. */
  lemma {:induction false} JoinLacks(ps: seq<string>, sep: char, c: char)
    requires c != sep
    requires forall i :: 0 <= i < |ps| ==> c !in ps[i]
    ensures c !in Join(ps, sep)
  {
    if |ps| > 1 {
      JoinLacks(ps[1..], sep, c);
      assert c !in ps[0];
    }
  }

  /** Every character of the joined string is the joining character or a character of
      a piece, so a bound that holds for those holds for the joined string. */
  lemma {:induction false} JoinBelow(ps: seq<string>, sep: char, bound: int)
    requires sep as int < bound
    requires forall i, j :: 0 <= i < |ps| && 0 <= j < |ps[i]| ==> ps[i][j] as int < bound
    ensures forall j :: 0 <= j < |Join(ps, sep)| ==> Join(ps, sep)[j] as int < bound
  {
    if |ps| > 1 {
      JoinBelow(ps[1..], sep, bound);
      var tail := Join(ps[1..], sep);
      assert forall j :: 0 <= j < |tail| ==> tail[j] as int < bound;
      assert forall j :: 0 <= j < |ps[0]| ==> ps[0][j] as int < bound;
    }
  }

  /** A joined string starts with the first piece's first character and ends with the
      last piece's last character. */
  lemma {:induction false} JoinEnds(ps: seq<string>, sep: char)
    requires |ps| >= 1 && forall i :: 0 <= i < |ps| ==> ps[i] != []
    ensures var j := Join(ps, sep);
      |j| >= |ps[0]| && j[0] == ps[0][0] && j[|j| - 1] == ps[|ps| - 1][|ps[|ps| - 1]| - 1]
  {
    if |ps| > 1 {
      JoinEnds(ps[1..], sep);
    }
  }

  /** `filter(None, ps)`: the non-empty pieces, in order. */
  function DropEmpty(ps: seq<string>): seq<string>
  {
    if ps == [] then []
    else if ps[0] == [] then DropEmpty(ps[1..])
    else [ps[0]] + DropEmpty(ps[1..])
  }

  /** `filter(None, ps)` keeps exactly the non-empty pieces, and all of `ps` when none
      is empty. */
  lemma {:induction false} DropEmptySpec(ps: seq<string>)
    ensures var r := DropEmpty(ps);
      && (forall i :: 0 <= i < |r| ==> r[i] != [] && r[i] in ps)
      && (forall i :: 0 <= i < |ps| && ps[i] != [] ==> ps[i] in r)
      && ((forall i :: 0 <= i < |ps| ==> ps[i] != []) ==> r == ps)
  {
    var r := DropEmpty(ps);
    DropEmptyCounts(ps);
    forall i | 0 <= i < |r| ensures r[i] != [] && r[i] in ps {
      assert r[i] in multiset(r);
    }
    forall i | 0 <= i < |ps| && ps[i] != [] ensures ps[i] in r {
      assert ps[i] in multiset(ps);
      assert multiset(r)[ps[i]] == multiset(ps)[ps[i]] > 0;
    }
    if forall i :: 0 <= i < |ps| ==> ps[i] != [] {
      DropEmptyKeepsAll(ps);
    }
  }

  lemma {:induction false} DropEmptyKeepsAll(ps: seq<string>)
    requires forall i :: 0 <= i < |ps| ==> ps[i] != []
    ensures DropEmpty(ps) == ps
  {
    if ps != [] {
      assert ps[0] != [];
      assert forall i :: 0 <= i < |ps[1..]| ==> ps[1..][i] == ps[i + 1];
      DropEmptyKeepsAll(ps[1..]);
      assert ps == [ps[0]] + ps[1..];
    }
  }

  /** `filter(None, ...)` works piece by piece: filtering a concatenation concatenates
      the filtered parts, so order and repetitions are kept. */
  lemma {:induction false} DropEmptyAppend(a: seq<string>, b: seq<string>)
    ensures DropEmpty(a + b) == DropEmpty(a) + DropEmpty(b)
  {
    if a == [] {
      assert a + b == b;
    } else {
      assert (a + b)[0] == a[0] && (a + b)[1..] == a[1..] + b;
      DropEmptyAppend(a[1..], b);
    }
  }

  /** `filter(None, ps)` holds every non-empty piece as often as `ps` does, and no empty one. */
  lemma {:induction false} DropEmptyCounts(ps: seq<string>)
    ensures multiset(DropEmpty(ps)) == multiset(ps)[[] := 0]
  {
    if ps != [] {
      DropEmptyCounts(ps[1..]);
      assert ps == [ps[0]] + ps[1..];
    }
  }

  /** A property of every piece carries over to what `filter(None, ...)` keeps. */
  lemma {:induction false} DropEmptyAll(ps: seq<string>, P: string -> bool)
    requires forall i :: 0 <= i < |ps| ==> P(ps[i])
    ensures forall i :: 0 <= i < |DropEmpty(ps)| ==> DropEmpty(ps)[i] != [] && P(DropEmpty(ps)[i])
  {
    if ps != [] {
      assert forall i :: 0 <= i < |ps[1..]| ==> P(ps[1..][i]) by {
        forall i | 0 <= i < |ps[1..]| ensures P(ps[1..][i]) {
          assert ps[1..][i] == ps[i + 1];
        }
      }
      DropEmptyAll(ps[1..], P);
    }
  }

  /** `s.split()`: the maximal runs of non-whitespace characters. */
  function SplitWhitespace(s: string): seq<string>
  {
    DropEmpty(SplitOn(s, Whitespace))
  }

  /** Every token of `s.split()` is non-empty and holds no whitespace. */
  lemma SplitWhitespaceSpec(s: string)
    ensures var r := SplitWhitespace(s);
      forall i :: 0 <= i < |r| ==> r[i] != [] && NoSpace(r[i])
  {
    var pieces := SplitOn(s, Whitespace);
    SplitOnUnseparated(s, Whitespace);
    DropEmptyAll(pieces, p => NoSpace(p));
  }

  /** `SplitOn` of a string that starts with a separator: an empty first piece. */
  lemma {:induction false} SplitOnConsSep(x: char, t: string, d: Separator)
    requires Separates(d, x)
    ensures SplitOn([x] + t, d) == [[]] + SplitOn(t, d)
  {
    assert ([x] + t)[0] == x && ([x] + t)[1..] == t;
  }

  /** `SplitOn` of a string that starts with another character: it begins the first piece. */
  lemma {:induction false} SplitOnConsGlue(x: char, t: string, d: Separator)
    requires !Separates(d, x)
    ensures SplitOn([x] + t, d) == [[x] + SplitOn(t, d)[0]] + SplitOn(t, d)[1..]
  {
    assert ([x] + t)[0] == x && ([x] + t)[1..] == t;
  }

  /** A character put in front of both sides keeps an equation between the pieces of
      `tail` and those of `a` followed by `sb`. */
  lemma {:induction false} SplitOnSeparatorCons(x: char, a: string, tail: string, sb: seq<string>, d: Separator)
    requires SplitOn(tail, d) == SplitOn(a, d) + sb
    ensures SplitOn([x] + tail, d) == SplitOn([x] + a, d) + sb
  {
    var ra := SplitOn(a, d);
    if Separates(d, x) {
      SplitOnConsSep(x, tail, d);
      SplitOnConsSep(x, a, d);
      assert [[]] + (ra + sb) == ([[]] + ra) + sb;
    } else {
      SplitOnConsGlue(x, tail, d);
      SplitOnConsGlue(x, a, d);
      GlueFirst([x], ra, sb);
    }
  }

  /** Cutting at one separator character splits the pieces of what precedes it from the
      pieces of what follows it. */
  lemma {:induction false} SplitOnSeparator(a: string, w: char, b: string, d: Separator)
    requires Separates(d, w)
    ensures SplitOn(a + [w] + b, d) == SplitOn(a, d) + SplitOn(b, d)
  {
    if a == [] {
      assert a + [w] + b == [w] + b;
      SplitOnConsSep(w, b, d);
      assert SplitOn(a, d) == [[]];
    } else {
      SplitOnSeparator(a[1..], w, b, d);
      SplitOnSeparatorCons(a[0], a[1..], a[1..] + [w] + b, SplitOn(b, d), d);
      Uncons(a, w, b);
    }
  }

  lemma {:induction false} Uncons<T>(a: seq<T>, w: T, b: seq<T>)
    requires a != []
    ensures a == [a[0]] + a[1..] && a + [w] + b == [a[0]] + (a[1..] + [w] + b)
  {
  }

  /** Gluing a prefix onto the first piece commutes with appending further pieces. */
  lemma {:induction false} GlueFirst(p: string, ra: seq<string>, sb: seq<string>)
    requires |ra| >= 1
    ensures [p + (ra + sb)[0]] + (ra + sb)[1..] == ([p + ra[0]] + ra[1..]) + sb
  {
    assert (ra + sb)[0] == ra[0] && (ra + sb)[1..] == ra[1..] + sb;
  }

  /** `s.split()` cuts at each whitespace character: the tokens before it, then the
      tokens after it. */
  lemma SplitWhitespaceSeparator(a: string, w: char, b: string)
    requires IsSpace(w)
    ensures SplitWhitespace(a + [w] + b) == SplitWhitespace(a) + SplitWhitespace(b)
  {
    SplitOnSeparator(a, w, b, Whitespace);
    DropEmptyAppend(SplitOn(a, Whitespace), SplitOn(b, Whitespace));
  }

  /** `s.split()` of the empty string is empty, and of a non-empty run without whitespace
      is that run alone. With `SplitWhitespaceSeparator` this determines `split()` on
      every string: its tokens are the maximal non-whitespace runs, in order. */
  lemma SplitWhitespaceWord(t: string)
    requires NoSpace(t)
    ensures SplitWhitespace(t) == if t == [] then [] else [t]
  {
    SplitOnPrefix(t, [], Whitespace);
    assert SplitOn([], Whitespace) == [[]];
    assert t + [] == t;
    assert SplitOn(t, Whitespace) == [t];
    if t == [] {
      assert DropEmpty([t]) == DropEmpty([]);
    } else {
      assert DropEmpty([t]) == [t] + DropEmpty([]);
    }
  }

  /** `' '.join(ts).split()` gives back `ts` when its tokens are non-empty and hold no
      whitespace. */
  lemma SplitWhitespaceJoin(ts: seq<string>)
    requires forall i :: 0 <= i < |ts| ==> ts[i] != [] && NoSpace(ts[i])
    ensures SplitWhitespace(Join(ts, ' ')) == ts
  {
    if ts != [] {
      SplitJoin(ts, ' ', Whitespace);
      DropEmptySpec(ts);
    }
  }

  /** `s.replace(c, '')` */
  function Remove(s: string, c: char): string
  {
    if s == [] then []
    else (if s[0] == c then [] else [s[0]]) + Remove(s[1..], c)
  }

  /** `s.replace(c, '')` drops every `c` and keeps every other character as often as
      it occurs. */
  lemma {:induction false} RemoveCounts(s: string, c: char)
    ensures multiset(Remove(s, c)) == multiset(s)[c := 0]
  {
    if s != [] {
      RemoveCounts(s[1..], c);
      var h: string := if s[0] == c then [] else [s[0]];
      var r := Remove(s[1..], c);
      assert Remove(s, c) == h + r;
      Uncons1(s);
      assert multiset(s) == multiset([s[0]]) + multiset(s[1..]);
      assert multiset(Remove(s, c)) == multiset(h) + multiset(r);
    }
  }

  lemma {:induction false} Uncons1<T>(s: seq<T>)
    requires s != []
    ensures s == [s[0]] + s[1..]
  {
  }

  /** `s.replace(c, '')` is `s` itself when `s` holds no `c`. */
  lemma {:induction false} RemoveAbsent(s: string, c: char)
    requires c !in s
    ensures Remove(s, c) == s
  {
    if s != [] {
      assert s == [s[0]] + s[1..];
      RemoveAbsent(s[1..], c);
    }
  }

  /** `s.replace(c, '')` holds no `c`, keeps every other character as often as it
      occurs, and is `s` itself when `s` holds no `c`. */
  lemma RemoveSpec(s: string, c: char)
    ensures multiset(Remove(s, c)) == multiset(s)[c := 0]
    ensures c !in Remove(s, c)
    ensures c !in s ==> Remove(s, c) == s
  {
    RemoveCounts(s, c);
    assert multiset(Remove(s, c))[c] == 0;
    if c !in s {
      RemoveAbsent(s, c);
    }
  }

  lemma {:induction false} RemoveAppend(a: string, b: string, c: char)
    ensures Remove(a + b, c) == Remove(a, c) + Remove(b, c)
  {
    if a != [] {
      assert (a + b)[0] == a[0];
      assert (a + b)[1..] == a[1..] + b;
      RemoveAppend(a[1..], b, c);
      var h: string := if a[0] == c then [] else [a[0]];
      assert Remove(a + b, c) == h + Remove(a[1..] + b, c);
      assert Remove(a, c) == h + Remove(a[1..], c);
      assert h + (Remove(a[1..], c) + Remove(b, c)) == (h + Remove(a[1..], c)) + Remove(b, c);
    } else {
      assert a + b == b;
    }
  }

  predicate IsDigit(c: char)
  {
    '0' <= c <= '9'
  }

  predicate IsDecimal(s: string)
  {
    s != [] && forall i :: 0 <= i < |s| ==> IsDigit(s[i])
  }

  /** The number a run of decimal digits denotes. */
  function DecimalValue(s: string): nat
    requires forall i :: 0 <= i < |s| ==> IsDigit(s[i])
  {
    if s == [] then 0
    else
      var last := s[|s| - 1];
      assert IsDigit(last);
      10 * DecimalValue(s[..|s| - 1]) + (last as int - '0' as int)
  }

  function Digit(d: nat): (c: char)
    requires d < 10
    ensures IsDigit(c) && c as int - '0' as int == d
  {
    ('0' as int + d) as char
  }

  /** `str(n)` for a non-negative `n`: its decimal digits, without leading zeros. */
  function DecimalString(n: nat): (s: string)
    ensures IsDecimal(s)
    ensures s[0] == '0' ==> n == 0
  {
    if n < 10 then [Digit(n)] else DecimalString(n / 10) + [Digit(n % 10)]
  }

  lemma {:induction false} DecimalValueOfString(n: nat)
    ensures DecimalValue(DecimalString(n)) == n
  {
    if n >= 10 {
      DecimalValueOfString(n / 10);
      var s := DecimalString(n);
      assert s[..|s| - 1] == DecimalString(n / 10);
    }
  }

  /** `int(s)` of a run of decimal digits is the number they denote. */
  lemma ParseIntDecimal(s: string)
    requires IsDecimal(s)
    ensures ParseInt(s) == Some(DecimalValue(s))
  {
    StripSpec(s);
  }

  /** `int(str(n)) == n` for a non-negative `n`. */
  lemma ParseDecimalString(n: nat)
    ensures ParseInt(DecimalString(n)) == Some(n)
  {
    DecimalValueOfString(n);
    ParseIntDecimal(DecimalString(n));
  }

  /** `str(n)` */
  function IntString(n: int): (s: string)
    ensures s != [] && NoSpace(s) && '\0' !in s
  {
    if n < 0 then "-" + DecimalString(-n) else DecimalString(n)
  }

  /** Python 2 `int(s)`, base 10: surrounding whitespace is skipped, an optional sign
      may be followed by whitespace, then one or more decimal digits. `None` stands
      for the ValueError. Integers are unbounded, as Python 2 promotes to `long`. */
  function ParseInt(s: string): Option<int>
  {
    var t := Strip(s);
    if t != [] && (t[0] == '+' || t[0] == '-') then
      var digits := StripLeft(t[1..]);
      if IsDecimal(digits) then
        var magnitude: int := DecimalValue(digits);
        Some(if t[0] == '-' then -magnitude else magnitude)
      else None
    else if IsDecimal(t) then Some(DecimalValue(t))
    else None
  }

  /** `int(s)` ignores whitespace around its argument, and accepts only a string that,
      once stripped, starts with a digit or a sign and ends with a digit. */
  lemma ParseIntSpec(s: string)
    ensures ParseInt(Strip(s)) == ParseInt(s)
    ensures ParseInt(s).Some? ==> var t := Strip(s);
      t != [] && (IsDigit(t[0]) || t[0] == '+' || t[0] == '-') && IsDigit(t[|t| - 1])
  {
    var t := Strip(s);
    StripSpec(s);
    StripSpec(t);
    assert Strip(t) == t;
    if ParseInt(s).Some? && t != [] && (t[0] == '+' || t[0] == '-') {
      var digits := StripLeft(t[1..]);
      StripLeftSpec(t[1..]);
      assert digits[|digits| - 1] == t[|t| - 1];
    }
  }

  /** `int('-' + digits)` is the negated number the digits denote. */
  lemma ParseNegative(digits: string)
    requires IsDecimal(digits)
    ensures ParseInt("-" + digits) == Some(-(DecimalValue(digits) as int))
  {
    var s := "-" + digits;
    assert s[0] == '-' && s[1..] == digits;
    assert s[|s| - 1] == digits[|digits| - 1];
    StripSpec(s);
    assert IsDigit(digits[0]);
  }

  /** `int(str(n)) == n` */
  lemma ParseIntString(n: int)
    ensures ParseInt(IntString(n)) == Some(n)
  {
    if n < 0 {
      ParseNegative(DecimalString(-n));
      DecimalValueOfString(-n);
    } else {
      ParseDecimalString(n);
    }
  }
}
