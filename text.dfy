/** The string operations the handlers use, with their JavaScript meaning:
    `split` and `join` on one separator character, `toLowerCase`,
    `includes` (the store's `contains` filter) and the ordering `<=` that
    the store's `lte`/`gte` filters apply to date strings. */
module Text {

  /** `s.split(sep)`: the maximal runs between separators, in order; a string
      without a separator is one part, the empty string is one empty part. */
  function Split(s: string, sep: char): (parts: seq<string>)
    ensures |parts| >= 1
    ensures forall i :: 0 <= i < |parts| ==> sep !in parts[i]
    ensures Join(parts, sep) == s
    decreases |s|
  {
    if s == [] then [""]
    else
      var rest := Split(s[1..], sep);
      if s[0] == sep then
        JoinCons("", rest, sep);
        JoinCons(rest[0], rest[1..], sep);
        assert s == [sep] + s[1..];
        [""] + rest
      else
        var first := [s[0]] + rest[0];
        JoinCons(first, rest[1..], sep);
        JoinCons(rest[0], rest[1..], sep);
        assert s == [s[0]] + s[1..];
        assert sep !in first;
        [first] + rest[1..]
  }

  /** Joining a part in front of others. */
  lemma JoinCons(first: string, rest: seq<string>, sep: char)
    ensures Join([first] + rest, sep) == first + Separated(rest, sep)
    ensures rest != [] ==> Separated(rest, sep) == [sep] + Join(rest, sep)
  {
    assert ([first] + rest)[1..] == rest;
  }

  /** `parts.join(sep)`. */
  function Join(parts: seq<string>, sep: char): string
  {
    if parts == [] then "" else parts[0] + Separated(parts[1..], sep)
  }

  /** Each of `parts` preceded by `sep`, concatenated. */
  function Separated(parts: seq<string>, sep: char): string
  {
    if parts == [] then "" else [sep] + parts[0] + Separated(parts[1..], sep)
  }

  /** Splitting undoes joining, as long as no part holds the separator. */
  lemma {:induction false} SplitOfJoin(parts: seq<string>, sep: char)
    requires |parts| >= 1
    requires forall i :: 0 <= i < |parts| ==> sep !in parts[i]
    ensures Split(Join(parts, sep), sep) == parts
    decreases |Join(parts, sep)|
  {
    var s := Join(parts, sep);
    var tail := parts[1..];
    if parts[0] == [] {
      if tail == [] {
        assert s == [];
      } else {
        assert tail[1..] == parts[2..];
        assert s == [sep] + Join(tail, sep);
        SplitOfJoin(tail, sep);
        assert s[1..] == Join(tail, sep);
        assert parts == [""] + tail;
      }
    } else {
      var head := parts[0][1..];
      var shorter := [head] + tail;
      assert shorter[1..] == tail;
      assert Join(shorter, sep) == head + Separated(tail, sep);
      assert parts[0] == [parts[0][0]] + head;
      assert s == [parts[0][0]] + Join(shorter, sep);
      assert sep !in head by {
        forall k | 0 <= k < |head| ensures head[k] != sep {
          assert head[k] == parts[0][k + 1];
        }
      }
      assert parts[0][0] != sep by {
        assert parts[0][0] in parts[0];
      }
      SplitOfJoin(shorter, sep);
      assert s[1..] == Join(shorter, sep);
      assert parts == [[parts[0][0]] + head] + tail;
    }
  }

  /** Joining three fields puts one separator between neighbours. */
  lemma JoinThree(a: string, b: string, c: string, sep: char)
    ensures Join([a, b, c], sep) == a + [sep] + b + [sep] + c
  {
    assert Separated([c], sep) == [sep] + c by {
      assert [c][1..] == [];
    }
    assert Separated([b, c], sep) == [sep] + b + [sep] + c by {
      assert [b, c][1..] == [c];
    }
    assert [a, b, c][1..] == [b, c];
  }

  /** Splitting `a/b/c` on `/` gives back the three fields. */
  lemma SplitThree(a: string, b: string, c: string, sep: char)
    requires sep !in a && sep !in b && sep !in c
    ensures Split(a + [sep] + b + [sep] + c, sep) == [a, b, c]
  {
    JoinThree(a, b, c, sep);
    SplitOfJoin([a, b, c], sep);
  }

  /** A string that splits into three fields is those fields joined. */
  lemma ThreeFieldsJoined(s: string, sep: char)
    requires |Split(s, sep)| == 3
    ensures var p := Split(s, sep); s == p[0] + [sep] + p[1] + [sep] + p[2]
  {
    var p := Split(s, sep);
    assert p == [p[0], p[1], p[2]];
    JoinThree(p[0], p[1], p[2], sep);
  }

  /** `c.toLowerCase()` for the ASCII letters; every other character is kept. */
  function LowerChar(c: char): char
  {
    if 'A' <= c <= 'Z' then (c as int + 32) as char else c
  }

  /** `s.toLowerCase()`, restricted to ASCII case mapping. */
  function ToLower(s: string): (r: string)
    ensures |r| == |s|
    ensures forall i :: 0 <= i < |r| ==> !('A' <= r[i] <= 'Z')
    ensures forall i :: 0 <= i < |r| ==> r[i] == s[i] || ('A' <= s[i] <= 'Z' && r[i] as int == s[i] as int + 32)
  {
    if s == [] then [] else [LowerChar(s[0])] + ToLower(s[1..])
  }

  /** Lower-casing twice is lower-casing once. */
  lemma {:induction false} ToLowerIdempotent(s: string)
    ensures ToLower(ToLower(s)) == ToLower(s)
  {
    if s != [] {
      ToLowerIdempotent(s[1..]);
      assert ToLower(s)[1..] == ToLower(s[1..]);
    }
  }

  /** `sub` stands in `s` at position `i`. */
  predicate OccursAt(s: string, sub: string, i: int)
  {
    0 <= i && i + |sub| <= |s| && s[i..i + |sub|] == sub
  }

  /** `s.includes(sub)`, the store's `contains` string filter. */
  predicate Contains(s: string, sub: string)
  {
    exists i :: 0 <= i <= |s| - |sub| && OccursAt(s, sub, i)
  }

  /** In `a/b/c` with separator-free fields, the separator stands only at the two field boundaries. */
  lemma SeparatorPositions(a: string, b: string, c: string, sep: char, k: int)
    requires sep !in a && sep !in b && sep !in c
    requires 0 <= k < |a + [sep] + b + [sep] + c| && k != |a| && k != |a| + 1 + |b|
    ensures (a + [sep] + b + [sep] + c)[k] != sep
  {
    var s := a + [sep] + b + [sep] + c;
    if k < |a| {
      assert s[k] == a[k];
      assert a[k] in a;
    } else if k < |a| + 1 + |b| {
      assert s[k] == b[k - |a| - 1];
      assert b[k - |a| - 1] in b;
    } else {
      assert s[k] == c[k - |a| - |b| - 2];
      assert c[k - |a| - |b| - 2] in c;
    }
  }

  /** `a/b/c` contains `/x/` exactly when `x` is the middle field: the first
      field has no separator before it and the last none after it. */
  lemma MiddleFieldMatch(a: string, b: string, c: string, sep: char, x: string)
    requires sep !in a && sep !in b && sep !in c
    ensures Contains(a + [sep] + b + [sep] + c, [sep] + x + [sep]) <==> x == b
  {
    var s := a + [sep] + b + [sep] + c;
    var pattern := [sep] + x + [sep];
    if x == b {
      assert s == a + pattern + c;
      assert s[|a|..|a| + |pattern|] == pattern;
      assert OccursAt(s, pattern, |a|);
    }
    if Contains(s, pattern) {
      var i :| 0 <= i <= |s| - |pattern| && OccursAt(s, pattern, i);
      var j := i + |pattern| - 1;
      assert s[i] == pattern[0] == sep;
      assert s[j] == pattern[|pattern| - 1] == sep;
      if i != |a| && i != |a| + 1 + |b| {
        SeparatorPositions(a, b, c, sep, i);
      }
      if j != |a| && j != |a| + 1 + |b| {
        SeparatorPositions(a, b, c, sep, j);
      }
      assert i == |a| && j == |a| + 1 + |b|;
      assert |x| == |b|;
      forall k | 0 <= k < |x| ensures x[k] == b[k] {
        assert x[k] == pattern[k + 1] == s[i + 1 + k];
      }
    }
  }

  /** `a <= b` on strings: lexicographic by character code, a proper prefix first. */
  predicate LexLe(a: string, b: string)
  {
    a == [] || (b != [] && (a[0] < b[0] || (a[0] == b[0] && LexLe(a[1..], b[1..]))))
  }

  lemma {:induction false} LexLeReflexive(a: string)
    ensures LexLe(a, a)
  {
    if a != [] {
      LexLeReflexive(a[1..]);
    }
  }

  lemma {:induction false} LexLeAntisymmetric(a: string, b: string)
    requires LexLe(a, b) && LexLe(b, a)
    ensures a == b
  {
    if a != [] && b != [] {
      LexLeAntisymmetric(a[1..], b[1..]);
      assert a == [a[0]] + a[1..] && b == [b[0]] + b[1..];
    }
  }

  lemma {:induction false} LexLeTransitive(a: string, b: string, c: string)
    requires LexLe(a, b) && LexLe(b, c)
    ensures LexLe(a, c)
  {
    if a != [] && b != [] && c != [] && a[0] == b[0] == c[0] {
      LexLeTransitive(a[1..], b[1..], c[1..]);
    }
  }

  lemma {:induction false} LexLeTotal(a: string, b: string)
    ensures LexLe(a, b) || LexLe(b, a)
  {
    if a != [] && b != [] && a[0] == b[0] {
      LexLeTotal(a[1..], b[1..]);
    }
  }

  /** When the first `|a|` characters are `a` on both sides, the order is decided by the rest. */
  lemma {:induction false} LexLeCommonPrefix(a: string, x: string, y: string)
    ensures LexLe(a + x, a + y) == LexLe(x, y)
  {
    if a != [] {
      assert (a + x)[1..] == a[1..] + x && (a + y)[1..] == a[1..] + y;
      LexLeCommonPrefix(a[1..], x, y);
    } else {
      assert a + x == x && a + y == y;
    }
  }

  /** Two strings of equal length that differ are ordered by their first two strings alone. */
  lemma {:induction false} LexLeDecidedByPrefix(a: string, x: string, b: string, y: string)
    requires |a| == |b| && a != b
    ensures LexLe(a + x, b + y) == LexLe(a, b)
  {
    assert a != [] && b != [];
    assert (a + x)[0] == a[0] && (b + y)[0] == b[0];
    if a[0] == b[0] {
      assert a[1..] != b[1..] by {
        assert a == [a[0]] + a[1..] && b == [b[0]] + b[1..];
      }
      assert (a + x)[1..] == a[1..] + x && (b + y)[1..] == b[1..] + y;
      LexLeDecidedByPrefix(a[1..], x, b[1..], y);
    }
  }
}
