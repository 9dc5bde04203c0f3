/** The snake_case to camelCase conversion that the in-memory models use as
    their alias generator (`to_camel`). Strings are sequences of characters;
    case mapping is ASCII only. */
module StringUtils {

  /** ASCII upper-casing of one character; every other character is kept. */
  function Upper(c: char): char {
    if 'a' <= c <= 'z' then (c as int - 32) as char else c
  }

  /** ASCII lower-casing of one character; every other character is kept. */
  function Lower(c: char): char {
    if 'A' <= c <= 'Z' then (c as int + 32) as char else c
  }

  function LowerAll(s: string): string {
    seq(|s|, i requires 0 <= i < |s| => Lower(s[i]))
  }

  /** `str.capitalize`: the first character upper-cased, the rest lower-cased. */
  function Capitalize(w: string): string {
    if w == [] then [] else [Upper(w[0])] + LowerAll(w[1..])
  }

  /** `str.lstrip(c)`: drops every leading `c`. The result is the suffix of
      `s` left once the longest run of `c` at its start is removed. */
  function LStrip(s: string, c: char): (r: string)
    ensures |r| <= |s|
    ensures r == [] || r[0] != c
  {
    if s != [] && s[0] == c then LStrip(s[1..], c) else s
  }

  /** `str.split(sep)` with an explicit one-character separator: the pieces
      between separators, always at least one (the empty string splits to
      one empty piece), empty pieces kept. */
  function Split(s: string, sep: char): (parts: seq<string>)
    ensures |parts| >= 1
  {
    if s == [] then [[]]
    else
      var rest := Split(s[1..], sep);
      if s[0] == sep then [[]] + rest
      else [[s[0]] + rest[0]] + rest[1..]
  }

  /** `sep.join(parts)`. */
  function Join(parts: seq<string>, sep: char): string
    requires |parts| >= 1
  {
    if |parts| == 1 then parts[0] else parts[0] + [sep] + Join(parts[1..], sep)
  }

  /** The later segments of a camelCase name: each capitalized, then joined
      with nothing between them. */
  function CamelTail(parts: seq<string>): string {
    if parts == [] then [] else Capitalize(parts[0]) + CamelTail(parts[1..])
  }

  /** `to_camel(s)`: leading underscores dropped, the first segment kept as
      it is, every later segment capitalized, no separators. */
  function ToCamel(s: string): string {
    var parts := Split(LStrip(s, '_'), '_');
    parts[0] + CamelTail(parts[1..])
  }

  function Count(c: char, s: string): nat {
    if s == [] then 0 else (if s[0] == c then 1 else 0) + Count(c, s[1..])
  }

  function TotalLength(parts: seq<string>): nat {
    if parts == [] then 0 else |parts[0]| + TotalLength(parts[1..])
  }

  // ---------------------------------------------------------------------
  // Split and Join are inverse to each other

  /** No piece of a split contains the separator. */
  lemma {:induction false} SplitPiecesFree(s: string, sep: char)
    ensures forall i :: 0 <= i < |Split(s, sep)| ==> sep !in Split(s, sep)[i]
  {
    if s != [] {
      SplitPiecesFree(s[1..], sep);
    }
  }

  /** A split has exactly one more piece than there are separators. */
  lemma {:induction false} SplitCount(s: string, sep: char)
    ensures |Split(s, sep)| == Count(sep, s) + 1
  {
    if s != [] {
      SplitCount(s[1..], sep);
    }
  }

  /** Splitting loses exactly the separators. */
  lemma {:induction false} SplitLength(s: string, sep: char)
    ensures TotalLength(Split(s, sep)) == |s| - Count(sep, s)
  {
    if s != [] {
      SplitLength(s[1..], sep);
      var rest := Split(s[1..], sep);
      if s[0] != sep {
        assert TotalLength(rest) == |rest[0]| + TotalLength(rest[1..]);
      }
    }
  }

  /** Joining the pieces of a split gives back the string. */
  lemma {:induction false} JoinSplit(s: string, sep: char)
    ensures Join(Split(s, sep), sep) == s
  {
    if s != [] {
      JoinSplit(s[1..], sep);
      var rest := Split(s[1..], sep);
      if s[0] == sep {
        assert ([[]] + rest)[1..] == rest;
      } else if |rest| == 1 {
      } else {
        var parts := [[s[0]] + rest[0]] + rest[1..];
        assert parts[1..] == rest[1..];
        assert Join(parts, sep) == [s[0]] + (rest[0] + [sep] + Join(rest[1..], sep));
      }
    }
  }

  /** A string without the separator splits into itself alone. */
  lemma {:induction false} SplitWithoutSep(x: string, sep: char)
    requires sep !in x
    ensures Split(x, sep) == [x]
  {
    if x != [] {
      SplitWithoutSep(x[1..], sep);
      assert [x[0]] + x[1..] == x;
    }
  }

  /** Splitting at one separator splits each side independently. */
  lemma {:induction false} SplitAppend(x: string, y: string, sep: char)
    ensures Split(x + [sep] + y, sep) == Split(x, sep) + Split(y, sep)
  {
    if x == [] {
      assert [] + [sep] + y == [sep] + y;
      assert ([sep] + y)[1..] == y;
    } else {
      var s := x + [sep] + y;
      assert s[0] == x[0];
      assert s[1..] == x[1..] + [sep] + y;
      SplitAppend(x[1..], y, sep);
    }
  }

  /** Splitting a join of separator-free pieces gives back the pieces. */
  lemma {:induction false} SplitJoin(parts: seq<string>, sep: char)
    requires |parts| >= 1
    requires forall i :: 0 <= i < |parts| ==> sep !in parts[i]
    ensures Split(Join(parts, sep), sep) == parts
  {
    if |parts| == 1 {
      SplitWithoutSep(parts[0], sep);
    } else {
      SplitJoin(parts[1..], sep);
      SplitWithoutSep(parts[0], sep);
      SplitAppend(parts[0], Join(parts[1..], sep), sep);
      assert [parts[0]] + parts[1..] == parts;
    }
  }

  // ---------------------------------------------------------------------
  // Facts about the pieces ToCamel is made of

  lemma CapitalizeShape(w: string)
    ensures |Capitalize(w)| == |w|
    ensures '_' in Capitalize(w) <==> '_' in w
  {
    if w != [] {
      var r := Capitalize(w);
      assert r[0] == Upper(w[0]);
      assert forall i :: 1 <= i < |w| ==> r[i] == Lower(w[i]);
      if '_' in w {
        var i :| 0 <= i < |w| && w[i] == '_';
        assert r[i] == '_';
      }
    }
  }

  /** `capitalize` leaves no lower-case ASCII letter first and no upper-case
      ASCII letter after it. */
  lemma CapitalizeCase(w: string)
    ensures w != [] ==> !('a' <= Capitalize(w)[0] <= 'z')
    ensures forall i :: 1 <= i < |Capitalize(w)| ==> !('A' <= Capitalize(w)[i] <= 'Z')
  {
    if w != [] {
      var r := Capitalize(w);
      assert r[0] == Upper(w[0]);
      forall i | 1 <= i < |r| ensures !('A' <= r[i] <= 'Z') {
        assert r[i] == Lower(w[i]);
      }
    }
  }

  /** Capitalizing twice is capitalizing once. */
  lemma CapitalizeIdempotent(w: string)
    ensures Capitalize(Capitalize(w)) == Capitalize(w)
  {
    if w != [] {
      var r := Capitalize(w);
      var rr := Capitalize(r);
      assert |rr| == |r|;
      assert rr[0] == Upper(r[0]) == Upper(Upper(w[0])) == r[0];
      forall i | 1 <= i < |r| ensures rr[i] == r[i] {
        assert r[i] == Lower(w[i]);
        assert rr[i] == Lower(r[i]);
      }
    }
  }

  lemma {:induction false} CamelTailFree(parts: seq<string>)
    requires forall i :: 0 <= i < |parts| ==> '_' !in parts[i]
    ensures '_' !in CamelTail(parts)
  {
    if parts != [] {
      CapitalizeShape(parts[0]);
      CamelTailFree(parts[1..]);
    }
  }

  lemma {:induction false} CamelTailLength(parts: seq<string>)
    ensures |CamelTail(parts)| == TotalLength(parts)
  {
    if parts != [] {
      CapitalizeShape(parts[0]);
      CamelTailLength(parts[1..]);
    }
  }

  lemma {:induction false} CamelTailAppend(a: seq<string>, b: seq<string>)
    ensures CamelTail(a + b) == CamelTail(a) + CamelTail(b)
  {
    if a != [] {
      assert (a + b)[1..] == a[1..] + b;
      CamelTailAppend(a[1..], b);
    } else {
      assert a + b == b;
    }
  }

  /** Stripping drops only leading occurrences of `c`, so length and count
      drop by the same amount, and what is left does not start with `c`. */
  lemma {:induction false} LStripShape(s: string, c: char)
    ensures |s| - |LStrip(s, c)| == Count(c, s) - Count(c, LStrip(s, c))
    ensures LStrip(s, c) == [] || LStrip(s, c)[0] != c
    ensures c !in s ==> LStrip(s, c) == s
  {
    if s != [] && s[0] == c {
      LStripShape(s[1..], c);
    }
  }

  /** `lstrip` removes a run of the stripped character from the front and
      keeps the rest as it is. */
  lemma {:induction false} LStripRemovesRun(s: string, c: char)
    ensures LStrip(s, c) == s[|s| - |LStrip(s, c)|..]
    ensures forall i :: 0 <= i < |s| - |LStrip(s, c)| ==> s[i] == c
  {
    if s != [] && s[0] == c {
      LStripRemovesRun(s[1..], c);
      var k := |s| - |LStrip(s, c)|;
      assert s[1..][k - 1..] == s[k..];
      forall i | 0 <= i < k ensures s[i] == c {
        if i > 0 { assert s[i] == s[1..][i - 1]; }
      }
    }
  }

  lemma {:induction false} LStripAppend(s: string, t: string, c: char)
    ensures LStrip(s + t, c) == if LStrip(s, c) == [] then LStrip(t, c) else LStrip(s, c) + t
  {
    if s == [] {
      assert s + t == t;
    } else if s[0] == c {
      assert (s + t)[1..] == s[1..] + t;
      LStripAppend(s[1..], t, c);
    }
  }

  // ---------------------------------------------------------------------
  // Properties of ToCamel

  /** The output never contains an underscore. */
  lemma ToCamelHasNoUnderscore(s: string)
    ensures '_' !in ToCamel(s)
  {
    var parts := Split(LStrip(s, '_'), '_');
    SplitPiecesFree(LStrip(s, '_'), '_');
    CamelTailFree(parts[1..]);
  }

  /** A string without underscores is returned unchanged. */
  lemma ToCamelIdentity(s: string)
    requires '_' !in s
    ensures ToCamel(s) == s
  {
    LStripShape(s, '_');
    SplitWithoutSep(s, '_');
  }

  /** Converting twice is converting once. */
  lemma ToCamelIdempotent(s: string)
    ensures ToCamel(ToCamel(s)) == ToCamel(s)
  {
    ToCamelHasNoUnderscore(s);
    ToCamelIdentity(ToCamel(s));
  }

  /** The output is the input without its underscores, length-wise. */
  lemma ToCamelLength(s: string)
    ensures |ToCamel(s)| == |s| - Count('_', s)
  {
    var t := LStrip(s, '_');
    var parts := Split(t, '_');
    LStripShape(s, '_');
    SplitLength(t, '_');
    CamelTailLength(parts[1..]);
    assert TotalLength(parts) == |parts[0]| + TotalLength(parts[1..]);
  }

  /** Leading underscores are dropped. */
  lemma ToCamelDropsLeadingUnderscore(s: string)
    ensures ToCamel(['_'] + s) == ToCamel(s)
  {
    assert (['_'] + s)[1..] == s;
  }

  /** The first segment is kept as it is; every later segment, as split at
      underscores, is capitalized. */
  lemma ToCamelSegments(head: string, rest: string)
    requires head != [] && '_' !in head
    ensures ToCamel(head + ['_'] + rest) == head + CamelTail(Split(rest, '_'))
  {
    var s := head + ['_'] + rest;
    assert s[0] == head[0];
    LStripShape(head, '_');
    LStripAppend(head, ['_'] + rest, '_');
    assert head + (['_'] + rest) == s;
    SplitAppend(head, rest, '_');
    SplitWithoutSep(head, '_');
    assert ([head] + Split(rest, '_'))[1..] == Split(rest, '_');
  }

  /** Two underscore-free segments: the first kept, the second capitalized. */
  lemma ToCamelTwoSegments(head: string, tail: string)
    requires head != [] && '_' !in head && '_' !in tail
    ensures ToCamel(head + ['_'] + tail) == head + Capitalize(tail)
  {
    ToCamelSegments(head, tail);
    SplitWithoutSep(tail, '_');
    assert CamelTail([tail]) == Capitalize(tail) + CamelTail([]);
  }

  /** A trailing underscore contributes nothing. */
  lemma ToCamelTrailingUnderscore(s: string)
    ensures ToCamel(s + ['_']) == ToCamel(s)
  {
    var t := LStrip(s, '_');
    LStripAppend(s, ['_'], '_');
    if t != [] {
      assert t + ['_'] == t + ['_'] + [];
      SplitAppend(t, [], '_');
      var parts := Split(t, '_');
      assert Split(t + ['_'], '_') == parts + [[]];
      assert (parts + [[]])[1..] == parts[1..] + [[]];
      CamelTailAppend(parts[1..], [[]]);
      assert CamelTail([[]]) == [];
    }
  }

  /** An empty piece contributes nothing to the later segments. */
  lemma CamelSkipsEmptyPiece(p: seq<string>, q: seq<string>)
    requires |p| >= 1
    ensures (p + [[]] + q)[0] + CamelTail((p + [[]] + q)[1..]) == (p + q)[0] + CamelTail((p + q)[1..])
  {
    var withEmpty := p + [[]] + q;
    var without := p + q;
    assert withEmpty[0] == p[0] && without[0] == p[0];
    assert withEmpty[1..] == p[1..] + ([[]] + q);
    assert without[1..] == p[1..] + q;
    assert ([[]] + q)[1..] == q;
    assert CamelTail([[]] + q) == CamelTail(q);
    CamelTailAppend(p[1..], [[]] + q);
    CamelTailAppend(p[1..], q);
  }

  lemma SplitDoubled(t: string, b: string)
    ensures Split(t + ['_', '_'] + b, '_') == Split(t, '_') + [[]] + Split(b, '_')
  {
    assert t + ['_', '_'] + b == t + ['_'] + (['_'] + b);
    SplitAppend(t, ['_'] + b, '_');
    assert [] + ['_'] + b == ['_'] + b;
    SplitAppend([], b, '_');
  }

  /** A doubled underscore contributes no more than a single one. */
  lemma ToCamelDoubledUnderscore(a: string, b: string)
    ensures ToCamel(a + ['_', '_'] + b) == ToCamel(a + ['_'] + b)
  {
    var t := LStrip(a, '_');
    LStripAppend(a, ['_', '_'] + b, '_');
    LStripAppend(a, ['_'] + b, '_');
    assert a + (['_', '_'] + b) == a + ['_', '_'] + b;
    assert a + (['_'] + b) == a + ['_'] + b;
    if t == [] {
      assert (['_', '_'] + b)[1..] == ['_'] + b;
    } else {
      assert t + (['_', '_'] + b) == t + ['_', '_'] + b;
      assert t + (['_'] + b) == t + ['_'] + b;
      SplitDoubled(t, b);
      SplitAppend(t, b, '_');
      CamelSkipsEmptyPiece(Split(t, '_'), Split(b, '_'));
    }
  }

  /** `created_at` is exposed as `createdAt`. */
  lemma ToCamelCreatedAt()
    ensures ToCamel("created_at") == "createdAt"
  {
    assert "created_at" == "created" + ['_'] + "at";
    ToCamelTwoSegments("created", "at");
    assert Capitalize("at") == "At" by {
      assert LowerAll("t") == "t";
    }
  }

  /** `updated_at` is exposed as `updatedAt`. */
  lemma ToCamelUpdatedAt()
    ensures ToCamel("updated_at") == "updatedAt"
  {
    assert "updated_at" == "updated" + ['_'] + "at";
    ToCamelTwoSegments("updated", "at");
    assert Capitalize("at") == "At" by {
      assert LowerAll("t") == "t";
    }
  }
}
