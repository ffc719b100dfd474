/** `spacify(num, separator)`: thousands grouping of a number's text. The
    text is split on '.', the integer part (when it is at least five
    characters long) gets `separator` after every digit that is followed by
    a positive multiple of three digits up to its end, the fraction part
    (when present and at least five characters long) gets a space after
    every run of three digits from the left, and the parts are joined again
    with '.'. The input is the number's text as `toString` renders it; the
    two regular-expression replacements are written out on characters. */
module Spacify {

  predicate IsDigit(c: char)
  {
    '0' <= c <= '9'
  }

  predicate AllDigits(s: string)
  {
    forall i :: 0 <= i < |s| ==> IsDigit(s[i])
  }

  /** `Array.prototype.join`: the parts with `sep` between neighbours. */
  function Join(parts: seq<string>, sep: string): string
  {
    if |parts| == 0 then []
    else if |parts| == 1 then parts[0]
    else parts[0] + sep + Join(parts[1..], sep)
  }

  /** `String.prototype.split` on the one character `d`: the maximal runs
      between occurrences of `d`; there is always at least one part. */
  function Split(s: string, d: char): (parts: seq<string>)
    ensures |parts| >= 1
    ensures forall k :: 0 <= k < |parts| ==> d !in parts[k]
    ensures |parts| == 1 <==> d !in s
  {
    if |s| == 0 then [[]]
    else
      var rest := Split(s[1..], d);
      if s[0] == d then [[]] + rest
      else [[s[0]] + rest[0]] + rest[1..]
  }

  /** The lookahead test of `/(\d)(?=(\d{3})+$)/`: the first character of `s`
      is a digit followed by a positive multiple of three digits and nothing else. */
  predicate SeparatorAfter(s: string)
  {
    |s| > 1 && IsDigit(s[0]) && AllDigits(s[1..]) && (|s| - 1) % 3 == 0
  }

  /** The integer-part replacement `replace(/(\d)(?=(\d{3})+$)/g, '$1' + separator)`:
      every character is kept, and `sep` follows each position that passes the lookahead. */
  function GroupThousands(s: string, sep: string): string
  {
    if |s| == 0 then []
    else [s[0]] + (if SeparatorAfter(s) then sep else []) + GroupThousands(s[1..], sep)
  }

  /** The fraction-part replacement `replace(/(\d{3})/g, '$1 ')`: scanning from
      the left, each run of three digits is followed by a space. */
  function GroupTriples(s: string): string
  {
    if |s| >= 3 && AllDigits(s[..3]) then s[..3] + " " + GroupTriples(s[3..])
    else if |s| == 0 then []
    else [s[0]] + GroupTriples(s[1..])
  }

  /** The digit groups of thousands notation: a leading group of one to three
      digits, then groups of exactly three, which together spell `d`. */
  function Chunks(d: string): (groups: seq<string>)
    requires |d| > 0
    ensures |groups| == (|d| + 2) / 3
    ensures 1 <= |groups[0]| <= 3 && |groups[0]| % 3 == |d| % 3
    ensures forall i :: 1 <= i < |groups| ==> |groups[i]| == 3
    ensures Join(groups, []) == d
    decreases |d|
  {
    if |d| <= 3 then [d]
    else
      var k := (|d| - 1) % 3 + 1;
      [d[..k]] + Chunks(d[k..])
  }

  /** `s` without any occurrence of `c`. */
  function Without(s: string, c: char): string
  {
    if |s| == 0 then []
    else (if s[0] == c then [] else [s[0]]) + Without(s[1..], c)
  }

  /** The integer part as `spacify` leaves it: grouped when five or more characters long. */
  function GroupInteger(s: string, separator: string): string
  {
    if |s| >= 5 then GroupThousands(s, separator) else s
  }

  /** The fraction part as `spacify` leaves it: grouped when five or more characters long. */
  function GroupFraction(s: string): string
  {
    if |s| >= 5 then GroupTriples(s) else s
  }

  /** What `spacify` returns for the text `num`. */
  function SpacifyText(num: string, separator: string): string
  {
    var parts := Split(num, '.');
    var rest := if |parts| > 1 then [GroupFraction(parts[1])] + parts[2..] else [];
    Join([GroupInteger(parts[0], separator)] + rest, ".")
  }

  /** `spacify`: split the text, overwrite the integer and fraction parts in
      place, join. */
  method Spacify(num: string, separator: string) returns (out: string)
    ensures out == SpacifyText(num, separator)
  {
    var parts := Split(num, '.');
    var str := new string[|parts|](i requires 0 <= i < |parts| => parts[i]);
    assert str[..] == parts;
    if |str[0]| >= 5 {
      str[0] := GroupThousands(str[0], separator);
    }
    assert str[..] == parts[0 := GroupInteger(parts[0], separator)];
    if str.Length > 1 && |str[1]| >= 5 {
      str[1] := GroupTriples(str[1]);
    }
    assert str[..] == [GroupInteger(parts[0], separator)]
                      + (if |parts| > 1 then [GroupFraction(parts[1])] + parts[2..] else []);
    out := Join(str[..], ".");
  }

  // ---------------------------------------------------------------------
  // Split and join
  // ---------------------------------------------------------------------

  /** Putting `x` in front of the first part puts it in front of the join. */
  lemma JoinPrepend(x: string, parts: seq<string>, sep: string)
    requires |parts| >= 1
    ensures Join([x + parts[0]] + parts[1..], sep) == x + Join(parts, sep)
  {
    var moved := [x + parts[0]] + parts[1..];
    if |parts| > 1 {
      assert moved[1..] == parts[1..];
      assert (x + parts[0]) + sep + Join(parts[1..], sep) == x + (parts[0] + sep + Join(parts[1..], sep));
    }
  }

  /** Joining the parts of a split with the split character gives the text back. */
  lemma {:induction false} JoinSplit(s: string, d: char)
    ensures Join(Split(s, d), [d]) == s
    decreases |s|
  {
    if |s| > 0 {
      var rest := Split(s[1..], d);
      JoinSplit(s[1..], d);
      if s[0] == d {
        var parts := [[]] + rest;
        assert Split(s, d) == parts;
        assert parts[1..] == rest;
        assert Join(parts, [d]) == [] + [d] + Join(rest, [d]);
      } else {
        assert Split(s, d) == [[s[0]] + rest[0]] + rest[1..];
        JoinPrepend([s[0]], rest, [d]);
      }
      assert s == [s[0]] + s[1..];
    }
  }

  /** Splitting text that starts with a run free of `d` puts that run at the
      front of the first part. */
  lemma {:induction false} SplitPrefix(p: string, t: string, d: char)
    requires d !in p
    ensures Split(p + t, d) == [p + Split(t, d)[0]] + Split(t, d)[1..]
    decreases |p|
  {
    if |p| > 0 {
      SplitPrefix(p[1..], t, d);
      assert (p + t)[1..] == p[1..] + t;
      assert (p + t)[0] == p[0] != d;
      assert [p[0]] + (p[1..] + Split(t, d)[0]) == p + Split(t, d)[0];
    } else {
      assert p + t == t;
      assert p + Split(t, d)[0] == Split(t, d)[0];
      assert [Split(t, d)[0]] + Split(t, d)[1..] == Split(t, d);
    }
  }

  /** Splitting joined parts that are free of `d` gives the parts back. */
  lemma {:induction false} SplitJoin(parts: seq<string>, d: char)
    requires |parts| >= 1
    requires forall k :: 0 <= k < |parts| ==> d !in parts[k]
    ensures Split(Join(parts, [d]), d) == parts
    decreases |parts|
  {
    if |parts| == 1 {
      SplitPrefix(parts[0], [], d);
      assert parts[0] + [] == parts[0];
    } else {
      var tail := Join(parts[1..], [d]);
      SplitJoin(parts[1..], d);
      assert Join(parts, [d]) == parts[0] + ([d] + tail);
      SplitPrefix(parts[0], [d] + tail, d);
      assert ([d] + tail)[1..] == tail;
      assert Split([d] + tail, d) == [[]] + parts[1..];
      assert parts[0] + [] == parts[0];
    }
  }

  /** Between parts free of `c`, `c` occurs in the join exactly when there are
      at least two parts. */
  lemma {:induction false} JoinContains(parts: seq<string>, c: char)
    requires forall k :: 0 <= k < |parts| ==> c !in parts[k]
    ensures c in Join(parts, [c]) <==> |parts| >= 2
    decreases |parts|
  {
    if |parts| >= 2 {
      assert Join(parts, [c])[|parts[0]|] == c;
    }
  }

  // ---------------------------------------------------------------------
  // Integer part
  // ---------------------------------------------------------------------

  /** No position of a string of at most three characters passes the lookahead. */
  lemma {:induction false} GroupThousandsShort(s: string, sep: string)
    requires |s| <= 3
    ensures GroupThousands(s, sep) == s
    decreases |s|
  {
    if |s| > 0 {
      GroupThousandsShort(s[1..], sep);
      assert [s[0]] + s[1..] == s;
    }
  }

  /** When none of the first `j` positions passes the lookahead, they are copied as they are. */
  lemma {:induction false} GroupThousandsCopies(s: string, sep: string, j: nat)
    requires j <= |s|
    requires forall i :: 0 <= i < j ==> !SeparatorAfter(s[i..])
    ensures GroupThousands(s, sep) == s[..j] + GroupThousands(s[j..], sep)
    decreases j
  {
    if j > 0 {
      assert !SeparatorAfter(s[0..]) && s[0..] == s;
      forall i | 0 <= i < j - 1
        ensures !SeparatorAfter(s[1..][i..])
      {
        assert s[1..][i..] == s[i + 1..];
      }
      GroupThousandsCopies(s[1..], sep, j - 1);
      assert s[1..][j - 1..] == s[j..];
      assert [s[0]] + s[1..][..j - 1] == s[..j];
    }
  }

  /** Before the end of the leading group no position passes the lookahead. */
  lemma NoSeparatorInLeadingGroup(d: string, i: nat)
    requires |d| > 3 && i < (|d| - 1) % 3
    ensures !SeparatorAfter(d[i..])
  {
    assert |d[i..]| - 1 == |d| - 1 - i;
  }

  /** The last digit of the leading group passes the lookahead, so `sep` follows it. */
  lemma SeparatorAfterLeadingGroup(d: string, sep: string)
    requires |d| > 3 && AllDigits(d)
    ensures var k := (|d| - 1) % 3 + 1;
            GroupThousands(d[k - 1..], sep) == [d[k - 1]] + sep + GroupThousands(d[k..], sep)
  {
    var k := (|d| - 1) % 3 + 1;
    var t := d[k - 1..];
    assert |t| - 1 == |d| - k;
    assert t[1..] == d[k..];
    assert IsDigit(t[0]);
    assert SeparatorAfter(t);
  }

  /** The digits of the leading group but its last are copied as they are. */
  lemma LeadingGroupCopied(d: string, sep: string)
    requires |d| > 3 && AllDigits(d)
    ensures var k := (|d| - 1) % 3 + 1;
            GroupThousands(d, sep) == d[..k - 1] + GroupThousands(d[k - 1..], sep)
  {
    var k := (|d| - 1) % 3 + 1;
    forall i | 0 <= i < k - 1
      ensures !SeparatorAfter(d[i..])
    {
      NoSeparatorInLeadingGroup(d, i);
    }
    GroupThousandsCopies(d, sep, k - 1);
  }

  /** The first step of grouping a long run of digits: the leading group, then `sep`. */
  lemma GroupThousandsLeading(d: string, sep: string)
    requires |d| > 3 && AllDigits(d)
    ensures var k := (|d| - 1) % 3 + 1;
            GroupThousands(d, sep) == d[..k] + sep + GroupThousands(d[k..], sep)
  {
    LeadingGroupCopied(d, sep);
    SeparatorAfterLeadingGroup(d, sep);
  }

  /** For a run of digits the replacement is exactly thousands notation: the
      groups of `Chunks(d)` with `sep` between them. */
  lemma {:induction false} GroupThousandsIsChunks(d: string, sep: string)
    requires |d| > 0 && AllDigits(d)
    ensures GroupThousands(d, sep) == Join(Chunks(d), sep)
    decreases |d|
  {
    if |d| <= 3 {
      GroupThousandsShort(d, sep);
    } else {
      var k := (|d| - 1) % 3 + 1;
      GroupThousandsLeading(d, sep);
      GroupThousandsIsChunks(d[k..], sep);
      assert Chunks(d) == [d[..k]] + Chunks(d[k..]);
      assert Chunks(d)[1..] == Chunks(d[k..]);
    }
  }

  /** A leading minus sign is not a digit: it is copied and the digits after it are grouped. */
  lemma NegativeGroupThousands(d: string, sep: string)
    ensures GroupThousands(['-'] + d, sep) == ['-'] + GroupThousands(d, sep)
  {
    assert !SeparatorAfter(['-'] + d);
    assert (['-'] + d)[1..] == d;
  }

  lemma {:induction false} GroupThousandsAvoids(s: string, sep: string, c: char)
    requires c !in s && c !in sep
    ensures c !in GroupThousands(s, sep)
    decreases |s|
  {
    if |s| > 0 {
      GroupThousandsAvoids(s[1..], sep, c);
    }
  }

  // ---------------------------------------------------------------------
  // Fraction part
  // ---------------------------------------------------------------------

  /** On digits, each digit of `f` keeps its order with one space inserted
      after every complete triple: digit j lands at j + j/3 and positions
      3, 7, 11, ... hold the spaces. */
  lemma {:induction false} GroupTriplesLayout(f: string)
    requires AllDigits(f)
    ensures |GroupTriples(f)| == |f| + |f| / 3
    ensures forall j :: 0 <= j < |f| ==> GroupTriples(f)[j + j / 3] == f[j]
    ensures forall k :: 0 <= k < |f| / 3 ==> GroupTriples(f)[4 * k + 3] == ' '
    decreases |f|
  {
    if |f| >= 3 {
      var rest := GroupTriples(f[3..]);
      GroupTriplesLayout(f[3..]);
      assert GroupTriples(f) == f[..3] + " " + rest;
      forall j | 3 <= j < |f|
        ensures GroupTriples(f)[j + j / 3] == f[j]
      {
        assert j + j / 3 == 4 + ((j - 3) + (j - 3) / 3);
        assert f[3..][j - 3] == f[j];
      }
      forall k | 1 <= k < |f| / 3
        ensures GroupTriples(f)[4 * k + 3] == ' '
      {
        assert 4 * k + 3 == 4 + (4 * (k - 1) + 3);
      }
    } else if |f| > 0 {
      GroupTriplesShort(f);
    }
  }

  lemma {:induction false} GroupTriplesShort(f: string)
    requires |f| < 3
    ensures GroupTriples(f) == f
    decreases |f|
  {
    if |f| > 0 {
      GroupTriplesShort(f[1..]);
      assert [f[0]] + f[1..] == f;
    }
  }

  /** A fraction whose length is a positive multiple of three ends in a space. */
  lemma TrailingSpace(f: string)
    requires AllDigits(f) && |f| > 0 && |f| % 3 == 0
    ensures GroupTriples(f)[|GroupTriples(f)| - 1] == ' '
  {
    GroupTriplesLayout(f);
    assert |GroupTriples(f)| - 1 == 4 * (|f| / 3 - 1) + 3;
  }

  /** Deleting the spaces from the grouped digits gives the digits back. */
  lemma {:induction false} GroupTriplesWithoutSpaces(f: string)
    requires AllDigits(f)
    ensures Without(GroupTriples(f), ' ') == f
    decreases |f|
  {
    if |f| >= 3 {
      var head, tail := f[..3], f[3..];
      GroupTriplesStep(f);
      GroupTriplesWithoutSpaces(tail);
      WithoutSpaceAfter(head, GroupTriples(tail));
      assert head + tail == f;
    } else {
      GroupTriplesShort(f);
      WithoutDigits(f);
    }
  }

  /** One step of the fraction replacement on digits: a triple and a space. */
  lemma GroupTriplesStep(f: string)
    requires AllDigits(f) && |f| >= 3
    ensures AllDigits(f[3..])
    ensures GroupTriples(f) == f[..3] + (" " + GroupTriples(f[3..]))
  {
    assert AllDigits(f[..3]);
  }

  /** Deleting spaces from digits, a space and more text deletes them from the text. */
  lemma WithoutSpaceAfter(head: string, rest: string)
    requires AllDigits(head)
    ensures Without(head + (" " + rest), ' ') == head + Without(rest, ' ')
  {
    WithoutAppend(head, " " + rest, ' ');
    WithoutAppend(" ", rest, ' ');
    assert Without(" ", ' ') == [];
    WithoutDigits(head);
  }

  lemma {:induction false} WithoutAppend(a: string, b: string, c: char)
    ensures Without(a + b, c) == Without(a, c) + Without(b, c)
    decreases |a|
  {
    if |a| > 0 {
      WithoutAppend(a[1..], b, c);
      assert (a + b)[1..] == a[1..] + b;
    } else {
      assert a + b == b;
    }
  }

  lemma {:induction false} WithoutDigits(f: string)
    requires AllDigits(f)
    ensures Without(f, ' ') == f
    decreases |f|
  {
    if |f| > 0 {
      WithoutDigits(f[1..]);
      assert [f[0]] + f[1..] == f;
    }
  }

  lemma {:induction false} GroupTriplesAvoids(s: string, c: char)
    requires c !in s && c != ' '
    ensures c !in GroupTriples(s)
    decreases |s|
  {
    if |s| >= 3 && AllDigits(s[..3]) {
      GroupTriplesAvoids(s[3..], c);
      assert c !in s[..3];
    } else if |s| > 0 {
      GroupTriplesAvoids(s[1..], c);
    }
  }

  // ---------------------------------------------------------------------
  // spacify
  // ---------------------------------------------------------------------

  /** Text without a '.' is one integer part, grouped only when five or more
      characters long (a leading '-' counts). */
  lemma SpacifyWhole(num: string, separator: string)
    requires '.' !in num
    ensures SpacifyText(num, separator) == if |num| >= 5 then GroupThousands(num, separator) else num
  {
    var parts := Split(num, '.');
    JoinSplit(num, '.');
    assert parts == [num];
  }

  /** A non-negative integer's digits: "1234" stays as it is, "12345" gets thousands notation. */
  lemma SpacifyDigits(d: string, separator: string)
    requires |d| > 0 && AllDigits(d)
    ensures SpacifyText(d, separator) == if |d| >= 5 then Join(Chunks(d), separator) else d
  {
    assert '.' !in d ;
    SpacifyWhole(d, separator);
    if |d| >= 5 {
      GroupThousandsIsChunks(d, separator);
    }
  }

  /** A negative integer: the minus sign counts toward the length test, so
      four digits already get grouped ("-1234" does, "1234" does not). */
  lemma SpacifyNegative(d: string, separator: string)
    requires |d| > 0 && AllDigits(d)
    ensures SpacifyText(['-'] + d, separator) == ['-'] + (if |d| >= 4 then Join(Chunks(d), separator) else d)
  {
    assert '.' !in ['-'] + d ;
    SpacifyWhole(['-'] + d, separator);
    if |d| >= 4 {
      NegativeGroupThousands(d, separator);
      GroupThousandsIsChunks(d, separator);
    }
  }

  /** Text with one '.' splits into the integer and the fraction part. */
  lemma SplitDecimal(integer: string, fraction: string)
    requires '.' !in integer && '.' !in fraction
    ensures Split(integer + "." + fraction, '.') == [integer, fraction]
  {
    assert Join([integer, fraction], ".") == integer + "." + fraction;
    SplitJoin([integer, fraction], '.');
  }

  /** Text with one '.': the integer part is handled as above and the fraction
      part gets a literal space, never `separator`, when five or more long. */
  lemma SpacifyDecimal(integer: string, fraction: string, separator: string)
    requires '.' !in integer && '.' !in fraction
    ensures SpacifyText(integer + "." + fraction, separator)
            == GroupInteger(integer, separator) + "." + GroupFraction(fraction)
  {
    SplitDecimal(integer, fraction);
    var parts := Split(integer + "." + fraction, '.');
    assert parts[2..] == [];
    var i, f := GroupInteger(integer, separator), GroupFraction(fraction);
    assert [i] + ([f] + parts[2..]) == [i, f];
    assert SpacifyText(integer + "." + fraction, separator) == Join([i, f], ".");
    assert Join([i, f], ".") == i + "." + f;
  }

  /** When the separator has no '.', the result has a '.' exactly when the input does. */
  lemma SpacifyKeepsDot(num: string, separator: string)
    requires '.' !in separator
    ensures '.' in SpacifyText(num, separator) <==> '.' in num
  {
    var parts := Split(num, '.');
    var rest := if |parts| > 1 then [GroupFraction(parts[1])] + parts[2..] else [];
    var out := [GroupInteger(parts[0], separator)] + rest;
    GroupThousandsAvoids(parts[0], separator, '.');
    if |parts| > 1 {
      GroupTriplesAvoids(parts[1], '.');
    }
    assert |out| == |parts|;
    assert forall k :: 0 <= k < |out| ==> '.' !in out[k];
    JoinContains(out, '.');
  }

  /** "1234" has four characters and is left as it is. */
  lemma SpacifyExampleShort()
    ensures SpacifyText("1234", ",") == "1234"
  {
    SpacifyDigits("1234", ",");
  }

  /** "12345" becomes "12,345". */
  lemma SpacifyExampleLong()
    ensures SpacifyText("12345", ",") == "12,345"
  {
    SpacifyDigits("12345", ",");
    assert "12345"[..2] == "12" && "12345"[2..] == "345";
    assert Chunks("12345") == ["12", "345"];
  }

  /** "-1234" has five characters with its sign and becomes "-1,234". */
  lemma SpacifyExampleNegative()
    ensures SpacifyText("-1234", ",") == "-1,234"
  {
    var d := "1234";
    SpacifyNegative(d, ",");
    ChunksOfFour(d);
    assert "-1234" == ['-'] + d;
    assert ['-'] + Join([d[..1], d[1..]], ",") == "-1,234";
  }

  /** Four digits form a leading group of one and a group of three. */
  lemma ChunksOfFour(d: string)
    requires |d| == 4
    ensures Chunks(d) == [d[..1], d[1..]]
  {
    assert Chunks(d[1..]) == [d[1..]];
  }

  /** "1234.12345" becomes "1234.123 45": a space, not ",", in the fraction. */
  lemma SpacifyExampleFraction()
    ensures SpacifyText("1234.12345", ",") == "1234.123 45"
  {
    var integer, fraction := "1234", "12345";
    assert integer + "." + fraction == "1234.12345";
    SpacifyDecimal(integer, fraction, ",");
    FractionExample();
    LiteralJoin();
  }

  lemma LiteralJoin()
    ensures "1234" + "." + "123 45" == "1234.123 45"
  {
  }

  lemma FractionExample()
    ensures GroupFraction("12345") == "123 45"
  {
    var f := "12345";
    assert f[..3] == "123" && f[3..] == "45";
    assert AllDigits(f[..3]);
    GroupTriplesShort("45");
  }
}
