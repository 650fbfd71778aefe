/** The two string helpers of the school seeding script: classifying a school by its name, and
    writing a polygon ring as a WKT coordinate list. */
module Schools {
  import opened Graph

  // ----- upper-casing -----

  /** `toUpperCase` on one character; only the ASCII letters are modelled. */
  function UpperChar(c: char): char
  {
    if 'a' <= c <= 'z' then (c as int - 32) as char else c
  }

  /** `toUpperCase` */
  function ToUpper(s: string): string
  {
    seq(|s|, i requires 0 <= i < |s| => UpperChar(s[i]))
  }

  /** Upper-casing twice is upper-casing once. */
  lemma UpperIdempotent(s: string)
    ensures ToUpper(ToUpper(s)) == ToUpper(s)
  {
    var u := ToUpper(s);
    forall i | 0 <= i < |s|
      ensures ToUpper(u)[i] == u[i]
    {
      assert UpperChar(UpperChar(s[i])) == UpperChar(s[i]);
    }
  }

  /** Upper-casing agrees with a given word character by character. */
  lemma UpperWord(s: string, t: string)
    requires |s| == |t| && forall i :: 0 <= i < |s| ==> UpperChar(s[i]) == t[i]
    ensures ToUpper(s) == t
  {
  }

  // ----- substring search -----

  predicate StartsWith(s: string, p: string)
  {
    |p| <= |s| && s[..|p|] == p
  }

  /** `s.includes(sub)`: some suffix of `s` starts with `sub`. */
  predicate Contains(s: string, sub: string)
    decreases |s|
  {
    StartsWith(s, sub) || (|s| > 0 && Contains(s[1..], sub))
  }

  /** `sub` occurs in `s` at offset `i`. */
  predicate OccursAt(s: string, sub: string, i: int)
  {
    0 <= i && i + |sub| <= |s| && s[i..i + |sub|] == sub
  }

  /** A text that contains `sub` has it at some offset. */
  lemma {:induction false} ContainsOccurs(s: string, sub: string)
    requires Contains(s, sub)
    ensures exists i :: OccursAt(s, sub, i)
    decreases |s|
  {
    if StartsWith(s, sub) {
      assert OccursAt(s, sub, 0);
    } else {
      ContainsOccurs(s[1..], sub);
      var i :| OccursAt(s[1..], sub, i);
      assert s[1..][i..i + |sub|] == s[i + 1..i + 1 + |sub|];
      assert OccursAt(s, sub, i + 1);
    }
  }

  /** `sub` at any offset makes the text contain it. */
  lemma {:induction false} OccursContains(s: string, sub: string, i: int)
    requires OccursAt(s, sub, i)
    ensures Contains(s, sub)
    decreases i
  {
    if i == 0 {
      assert StartsWith(s, sub);
    } else {
      assert s[1..][i - 1..i - 1 + |sub|] == s[i..i + |sub|];
      OccursContains(s[1..], sub, i - 1);
    }
  }

  /** `Contains` agrees with the positional reading: `sub` occurs at some offset of `s`. */
  lemma ContainsAt(s: string, sub: string)
    ensures Contains(s, sub) <==> exists i :: OccursAt(s, sub, i)
  {
    if Contains(s, sub) {
      ContainsOccurs(s, sub);
    }
    if exists i :: OccursAt(s, sub, i) {
      var i :| OccursAt(s, sub, i);
      OccursContains(s, sub, i);
    }
  }

  /** A text whose first part lacks the first character of `sub` contains `sub` only if the rest
      does. */
  lemma {:induction false} SkipPrefix(a: string, b: string, sub: string)
    requires sub != [] && sub[0] !in a
    ensures Contains(a + b, sub) <==> Contains(b, sub)
    decreases |a|
  {
    if a != [] {
      SkipPrefix(a[1..], b, sub);
      assert (a + b)[1..] == a[1..] + b;
      assert (a + b)[0] == a[0];
    } else {
      assert a + b == b;
    }
  }

  /** Nothing shorter than `sub` contains it. */
  lemma {:induction false} TooShort(s: string, sub: string)
    requires |s| < |sub|
    ensures !Contains(s, sub)
    decreases |s|
  {
    if s != [] {
      TooShort(s[1..], sub);
    }
  }

  // ----- school type -----

  /** The type a school name stands for, tested on the upper-cased name in this order: "SMK",
      "SMA", "MA " or "MAN " (both meaning "MA"), and "SWASTA" for everything else. */
  function GetSchoolType(name: string): (r: string)
    ensures r == "SMK" || r == "SMA" || r == "MA" || r == "SWASTA"
  {
    var upperName := ToUpper(name);
    if Contains(upperName, "SMK") then "SMK"
    else if Contains(upperName, "SMA") then "SMA"
    else if Contains(upperName, "MA ") then "MA"
    else if Contains(upperName, "MAN ") then "MA"
    else "SWASTA"
  }

  /** Each of the four types is given exactly for the names its rule, and no earlier rule,
      matches; in particular "SMK" wins over "SMA" when a name holds both. */
  lemma SchoolTypeRules(name: string)
    ensures var u := ToUpper(name);
            (GetSchoolType(name) == "SMK" <==> Contains(u, "SMK")) &&
            (GetSchoolType(name) == "SMA" <==> !Contains(u, "SMK") && Contains(u, "SMA")) &&
            (GetSchoolType(name) == "MA" <==>
               !Contains(u, "SMK") && !Contains(u, "SMA") && (Contains(u, "MA ") || Contains(u, "MAN "))) &&
            (GetSchoolType(name) == "SWASTA" <==>
               !Contains(u, "SMK") && !Contains(u, "SMA") && !Contains(u, "MA ") && !Contains(u, "MAN "))
  {
  }

  /** The classification ignores case: a name and its upper-cased form get the same type. */
  lemma SchoolTypeIgnoresCase(name: string)
    ensures GetSchoolType(ToUpper(name)) == GetSchoolType(name)
  {
    UpperIdempotent(name);
  }

  /** A bare "MA" appended to a text, with nothing after it, adds no match for a needle that
      starts with "MA" and has no other "M": such a match would have to start in that "MA", where
      the needle does not fit. */
  lemma {:induction false} TrailingMaAddsNothing(p: string, sub: string)
    requires sub == "MA " || sub == "MAN "
    ensures Contains(p + "MA", sub) <==> Contains(p, sub)
    decreases |p|
  {
    if p == [] {
      assert p + "MA" == "MA";
      TooShort("MA", sub);
      TooShort(p, sub);
    } else {
      TrailingMaAddsNothing(p[1..], sub);
      assert (p + "MA")[1..] == p[1..] + "MA";
      if |p| >= |sub| {
        assert (p + "MA")[..|sub|] == p[..|sub|];
      } else {
        TooShort(p, sub);
        assert (p + "MA")[|p|] == 'M' && sub[|p|] != 'M';
      }
    }
  }

  /** Neither code that makes a name an "MA" can come from a bare "MA" at its end. */
  lemma TrailingMaNoMaCode(p: string)
    ensures Contains(p + "MA", "MA ") <==> Contains(p, "MA ")
    ensures Contains(p + "MA", "MAN ") <==> Contains(p, "MAN ")
  {
    TrailingMaAddsNothing(p, "MA ");
    TrailingMaAddsNothing(p, "MAN ");
  }

  /** Example: a bare "MA" at the end of a name, with no space after it, does not make it an "MA". */
  lemma BareTrailingMa()
    ensures GetSchoolType("Pondok MA") == "SWASTA"
  {
    var u := ToUpper("Pondok MA");
    assert u == "PONDOK " + "MA" by {
      UpperWord("Pondok MA", "PONDOK MA");
    }
    SkipPrefix("PONDOK ", "MA", "SMK");
    SkipPrefix("PONDOK ", "MA", "SMA");
    SkipPrefix("PONDOK ", "MA", "MA ");
    SkipPrefix("PONDOK ", "MA", "MAN ");
    TooShort("MA", "SMK");
    TooShort("MA", "SMA");
    TooShort("MA", "MA ");
    TooShort("MA", "MAN ");
  }

  /** Example: "MA" followed by a space, in a name without "SMK" or "SMA", makes it an "MA". */
  lemma SpacedMa()
    ensures GetSchoolType("MA Bontang") == "MA"
  {
    var v := ToUpper("MA Bontang");
    assert v == "MA BONTANG" + [] by {
      UpperWord("MA Bontang", "MA BONTANG");
    }
    SkipPrefix("MA BONTANG", [], "SMK");
    SkipPrefix("MA BONTANG", [], "SMA");
    TooShort([], "SMK");
    TooShort([], "SMA");
    assert StartsWith(v, "MA ");
  }

  /** Example: a lower-case name holding "sma" and no "smk" is an "SMA". */
  lemma LowerCaseSma()
    ensures GetSchoolType("sma negeri 1") == "SMA"
  {
    var w := ToUpper("sma negeri 1");
    assert w == "SMA NEGERI 1" by {
      UpperWord("sma negeri 1", "SMA NEGERI 1");
    }
    assert w[1..] + [] == "MA NEGERI 1";
    SkipPrefix(w[1..], [], "SMK");
    TooShort([], "SMK");
    assert w[..3] == "SMA" && w[..3][2] != "SMK"[2];
    assert StartsWith(w, "SMA");
  }

  // ----- WKT coordinates -----

  /** `parts.join(sep)`: the parts with one separator between neighbours. */
  function Join(parts: seq<string>, sep: char): string
    decreases |parts|
  {
    if parts == [] then ""
    else if |parts| == 1 then parts[0]
    else parts[0] + [sep] + Join(parts[1..], sep)
  }

  /** `s.split(sep)`: the pieces between separators; the empty string gives one empty piece. */
  function Split(s: string, sep: char): (r: seq<string>)
    ensures |r| >= 1
    decreases |s|
  {
    if s == [] then [[]]
    else if s[0] == sep then [[]] + Split(s[1..], sep)
    else
      var rest := Split(s[1..], sep);
      [[s[0]] + rest[0]] + rest[1..]
  }

  /** How often `c` occurs in `s`. */
  function Count(s: string, c: char): nat
    decreases |s|
  {
    if s == [] then 0 else (if s[0] == c then 1 else 0) + Count(s[1..], c)
  }

  /** One coordinate pair of a ring written as "second first": the axes swapped. */
  function WktPoint(p: Pair, show: real -> string): string
  {
    show(p.second) + " " + show(p.first)
  }

  /** `coordinatesToWKT`: every pair written with its axes swapped, joined by ",". Number
      formatting is the parameter `show`. */
  function CoordinatesToWkt(coords: seq<Pair>, show: real -> string): (r: string)
    ensures coords == [] ==> r == ""
  {
    Join(seq(|coords|, i requires 0 <= i < |coords| => WktPoint(coords[i], show)), ',')
  }

  lemma {:induction false} CountAppend(a: string, b: string, c: char)
    ensures Count(a + b, c) == Count(a, c) + Count(b, c)
    decreases |a|
  {
    if a != [] {
      CountAppend(a[1..], b, c);
      assert (a + b)[1..] == a[1..] + b;
      assert (a + b)[0] == a[0];
    } else {
      assert a + b == b;
    }
  }

  lemma {:induction false} CountAbsent(s: string, c: char)
    requires c !in s
    ensures Count(s, c) == 0
    decreases |s|
  {
    if s != [] {
      CountAbsent(s[1..], c);
    }
  }

  /** Joining `n >= 1` separator-free parts puts exactly `n - 1` separators in the result. */
  lemma {:induction false} JoinSeparators(parts: seq<string>, sep: char)
    requires parts != [] && forall i :: 0 <= i < |parts| ==> sep !in parts[i]
    ensures Count(Join(parts, sep), sep) == |parts| - 1
    decreases |parts|
  {
    CountAbsent(parts[0], sep);
    if |parts| > 1 {
      JoinSeparators(parts[1..], sep);
      CountAppend(parts[0] + [sep], Join(parts[1..], sep), sep);
      CountAppend(parts[0], [sep], sep);
    }
  }

  /** Splitting a separator-free piece followed by a separator and more text. */
  lemma {:induction false} SplitAfterPiece(p: string, t: string, sep: char)
    requires sep !in p
    ensures Split(p + [sep] + t, sep) == [p] + Split(t, sep)
    decreases |p|
  {
    if p != [] {
      SplitAfterPiece(p[1..], t, sep);
      assert (p + [sep] + t)[1..] == p[1..] + [sep] + t;
      assert (p + [sep] + t)[0] == p[0];
      assert [p[0]] + p[1..] == p;
    } else {
      assert p + [sep] + t == [sep] + t;
    }
  }

  /** A separator-free string splits into itself. */
  lemma {:induction false} SplitPiece(p: string, sep: char)
    requires sep !in p
    ensures Split(p, sep) == [p]
    decreases |p|
  {
    if p != [] {
      SplitPiece(p[1..], sep);
      assert [p[0]] + p[1..] == p;
    }
  }

  /** Splitting undoes joining, as long as no part holds the separator. */
  lemma {:induction false} SplitJoin(parts: seq<string>, sep: char)
    requires parts != [] && forall i :: 0 <= i < |parts| ==> sep !in parts[i]
    ensures Split(Join(parts, sep), sep) == parts
    decreases |parts|
  {
    if |parts| == 1 {
      SplitPiece(parts[0], sep);
    } else {
      SplitJoin(parts[1..], sep);
      SplitAfterPiece(parts[0], Join(parts[1..], sep), sep);
    }
  }

  /** When numbers are written without commas or spaces, the WKT list of a non-empty ring has
      one comma fewer than the ring has pairs, and splitting it at commas and then at the
      space gives back every pair, in ring order, as its second then its first component. */
  lemma WktLayout(coords: seq<Pair>, show: real -> string)
    requires coords != []
    requires forall x :: ',' !in show(x) && ' ' !in show(x)
    ensures var r := CoordinatesToWkt(coords, show);
            Count(r, ',') == |coords| - 1 &&
            |Split(r, ',')| == |coords| &&
            forall i :: 0 <= i < |coords| ==>
              Split(Split(r, ',')[i], ' ') == [show(coords[i].second), show(coords[i].first)]
  {
    var parts := seq(|coords|, i requires 0 <= i < |coords| => WktPoint(coords[i], show));
    assert forall i :: 0 <= i < |parts| ==> ',' !in parts[i];
    JoinSeparators(parts, ',');
    SplitJoin(parts, ',');
    forall i | 0 <= i < |coords|
      ensures Split(parts[i], ' ') == [show(coords[i].second), show(coords[i].first)]
    {
      SplitAfterPiece(show(coords[i].second), show(coords[i].first), ' ');
      SplitPiece(show(coords[i].first), ' ');
    }
  }
}
