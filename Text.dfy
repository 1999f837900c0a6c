/** Line- and string-level operations the pipeline uses: Python's
    `str.split` on a one-character separator, `str.join`, `str.lower`
    taken as a per-character mapping, and "occurs inside" for strings. */
module Text {

  /** `s` occurs inside `t` starting at index `i`. */
  predicate OccursAt(t: string, s: string, i: int)
  {
    0 <= i <= |t| - |s| && t[i..i + |s|] == s
  }

  /** `s` occurs somewhere inside `t` (Python's `s in t` on strings). */
  ghost predicate Contains(t: string, s: string)
  {
    exists i :: OccursAt(t, s, i)
  }

  /** `s.split(sep)` for a one-character separator: the pieces between
      separators, so that an empty string and a trailing separator
      each give an empty last piece. */
  function Split(s: string, sep: char): (r: seq<string>)
    ensures |r| >= 1
    ensures forall i :: 0 <= i < |r| ==> sep !in r[i]
  {
    if |s| == 0 then [""]
    else
      var rest := Split(s[1..], sep);
      if s[0] == sep then [""] + rest
      else [[s[0]] + rest[0]] + rest[1..]
  }

  /** `sep.join(parts)`: the parts in order, one separator between
      neighbours; JoinSplit and SplitJoin relate it to Split. */
  function Join(parts: seq<string>, sep: string): (r: string)
    ensures |parts| == 0 ==> r == ""
    ensures |parts| == 1 ==> r == parts[0]
  {
    if |parts| == 0 then ""
    else if |parts| == 1 then parts[0]
    else parts[0] + sep + Join(parts[1..], sep)
  }

  /** `s.lower()`, with the case mapping of a single character left as a
      parameter. */
  function Lower(s: string, lower: char -> char): (r: string)
    ensures |r| == |s|
    ensures forall i :: 0 <= i < |s| ==> r[i] == lower(s[i])
    ensures IdempotentLowering(lower) ==> forall i :: 0 <= i < |r| ==> lower(r[i]) == r[i]
  {
    seq(|s|, i requires 0 <= i < |s| => lower(s[i]))
  }

  /** Lowercasing a lowercased character changes nothing more. */
  ghost predicate IdempotentLowering(lower: char -> char)
  {
    forall c :: lower(lower(c)) == lower(c)
  }

  /** One concrete case mapping: ASCII upper-case letters to lower case. */
  function AsciiLower(c: char): (r: char)
    ensures 'A' <= c <= 'Z' ==> 'a' <= r <= 'z'
    ensures !('A' <= c <= 'Z') ==> r == c
  {
    if 'A' <= c <= 'Z' then (c as int + 32) as char else c
  }

  lemma AsciiLowerIsIdempotent()
    ensures IdempotentLowering(AsciiLower)
  {
    forall c ensures AsciiLower(AsciiLower(c)) == AsciiLower(c) {
      if 'A' <= c <= 'Z' {
        assert 'a' <= AsciiLower(c) <= 'z';
      }
    }
  }

  /** Under an idempotent case mapping, a lowercased string is its own
      lower-case form. */
  lemma LowerIsLowercase(s: string, lower: char -> char)
    requires IdempotentLowering(lower)
    ensures Lower(Lower(s, lower), lower) == Lower(s, lower)
  {
  }

  /** Joining the pieces of a split with the same separator gives the
      original string back: `sep.join(s.split(sep)) == s`. */
  lemma {:induction false} JoinSplit(s: string, sep: char)
    ensures Join(Split(s, sep), [sep]) == s
  {
    if |s| > 0 {
      var rest := Split(s[1..], sep);
      JoinSplit(s[1..], sep);
      if s[0] == sep {
        assert ([""] + rest)[1..] == rest;
      } else if |rest| == 1 {
        assert Split(s, sep) == [[s[0]] + rest[0]];
      } else {
        var parts := [[s[0]] + rest[0]] + rest[1..];
        assert parts[1..] == rest[1..];
        assert Join(rest, [sep]) == rest[0] + [sep] + Join(rest[1..], [sep]);
      }
    }
  }

  /** A string without the separator splits into itself alone. */
  lemma {:induction false} SplitPlain(p: string, sep: char)
    requires sep !in p
    ensures Split(p, sep) == [p]
  {
    if |p| > 0 {
      SplitPlain(p[1..], sep);
      assert [p[0]] + p[1..] == p;
    }
  }

  /** A separator-free piece followed by the separator splits off as one
      piece. */
  lemma {:induction false} SplitAfterPiece(p: string, sep: char, t: string)
    requires sep !in p
    ensures Split(p + [sep] + t, sep) == [p] + Split(t, sep)
  {
    if |p| == 0 {
      assert p + [sep] + t == [sep] + t;
      assert ([sep] + t)[1..] == t;
    } else {
      var s := p + [sep] + t;
      assert s[1..] == p[1..] + [sep] + t;
      SplitAfterPiece(p[1..], sep, t);
      assert [p[0]] + p[1..] == p;
    }
  }

  /** Splitting the join of separator-free lines gives the lines back:
      the other half of the round trip. */
  lemma {:induction false} SplitJoin(parts: seq<string>, sep: char)
    requires |parts| >= 1
    requires forall i :: 0 <= i < |parts| ==> sep !in parts[i]
    ensures Split(Join(parts, [sep]), sep) == parts
  {
    if |parts| == 1 {
      SplitPlain(parts[0], sep);
    } else {
      SplitJoin(parts[1..], sep);
      SplitAfterPiece(parts[0], sep, Join(parts[1..], [sep]));
      assert [parts[0]] + parts[1..] == parts;
    }
  }

  /** Joining two non-empty lists puts one separator between their joins. */
  lemma {:induction false} JoinAppend(a: seq<string>, b: seq<string>, sep: string)
    requires |a| >= 1 && |b| >= 1
    ensures Join(a + b, sep) == Join(a, sep) + sep + Join(b, sep)
  {
    if |a| == 1 {
      assert (a + b)[1..] == b;
    } else {
      JoinAppend(a[1..], b, sep);
      assert (a + b)[1..] == a[1..] + b;
    }
  }

  /** The join of three parts. */
  lemma JoinThree(x: string, y: string, z: string, sep: string)
    ensures Join([x, y, z], sep) == x + sep + y + sep + z
  {
    assert [x, y, z][1..] == [y, z] && [y, z][1..] == [z];
    assert Join([y, z], sep) == y + sep + z;
    assert Join([x, y, z], sep) == x + sep + (y + sep + z);
  }

  /** Joining `head + middle + tail` keeps the join of `middle` intact
      between the joins of `head` and `tail`. */
  lemma JoinAround(head: seq<string>, middle: seq<string>, tail: seq<string>, sep: string)
    requires |head| >= 1 && |middle| >= 1 && |tail| >= 1
    ensures Join(head + middle + tail, sep) == Join(head, sep) + sep + Join(middle, sep) + sep + Join(tail, sep)
  {
    JoinAppend(head + middle, tail, sep);
    JoinAppend(head, middle, sep);
  }

  /** Joining lines framed by two lines and a blank line on each side. */
  lemma JoinFramed(a: string, b: string, lines: seq<string>, c: string, d: string, sep: string)
    requires |lines| >= 1
    ensures Join([a, b, ""] + lines + ["", c, d], sep)
      == a + sep + b + (sep + sep) + Join(lines, sep) + (sep + sep) + c + sep + d
  {
    var head, tail := [a, b, ""], ["", c, d];
    var body := Join(lines, sep);
    assert Join(head + lines + tail, sep) == Join(head, sep) + sep + body + sep + Join(tail, sep) by {
      JoinAround(head, lines, tail, sep);
    }
    assert Join(head, sep) == a + sep + b + sep by {
      JoinThree(a, b, "", sep);
      assert a + sep + b + sep + "" == a + sep + b + sep;
    }
    assert Join(tail, sep) == sep + c + sep + d by {
      JoinThree("", c, d, sep);
      assert "" + sep == sep;
    }
    Regroup(a, b, body, c, d, sep);
  }

  /** Regrouping the concatenation JoinFramed produces. */
  lemma Regroup(a: string, b: string, body: string, c: string, d: string, sep: string)
    ensures (a + sep + b + sep) + sep + body + sep + (sep + c + sep + d)
      == a + sep + b + (sep + sep) + body + (sep + sep) + c + sep + d
  {
  }

  /** A join contains no character that neither its parts nor its
      separator contain. */
  lemma {:induction false} JoinAvoids(parts: seq<string>, sep: string, c: char)
    requires c !in sep
    requires forall i :: 0 <= i < |parts| ==> c !in parts[i]
    ensures c !in Join(parts, sep)
  {
    if |parts| > 1 {
      JoinAvoids(parts[1..], sep, c);
    }
  }

  /** What occurs inside `b` occurs inside `a + b + c`. */
  lemma ContainsInside(a: string, b: string, c: string)
    ensures forall w :: Contains(b, w) ==> Contains(a + b + c, w)
  {
    forall w | Contains(b, w) ensures Contains(a + b + c, w) {
      var i :| OccursAt(b, w, i);
      assert (a + b + c)[|a| + i..|a| + i + |w|] == b[i..i + |w|];
      assert OccursAt(a + b + c, w, |a| + i);
    }
  }

  /** Every part is named in the join. */
  lemma {:induction false} JoinContainsPart(parts: seq<string>, sep: string, k: nat)
    requires k < |parts|
    ensures Contains(Join(parts, sep), parts[k])
  {
    var t := Join(parts, sep);
    if |parts| == 1 {
      assert OccursAt(t, parts[0], 0);
    } else if k == 0 {
      assert OccursAt(t, parts[0], 0);
    } else {
      JoinContainsPart(parts[1..], sep, k - 1);
      var rest := Join(parts[1..], sep);
      var w := parts[k];
      var i :| OccursAt(rest, w, i);
      var off := |parts[0]| + |sep|;
      assert t == (parts[0] + sep) + rest;
      assert t[off + i..off + i + |w|] == rest[i..i + |w|];
      assert OccursAt(t, w, off + i);
    }
  }
}
