/**
 The tag parsing of the post routes: a comma-separated `tags` field becomes a
 sequence of tags by splitting on every comma and trimming each piece
 (JavaScript's `split(',')` followed by `trim()` on each piece).
 */
module Tags {

  /** The code points JavaScript's `String.prototype.trim` strips: the
      WhiteSpace and LineTerminator characters of ECMAScript (section 12.2
      and 12.3 of ECMA-262), including every Unicode space separator. */
  predicate IsWhitespace(c: char) {
    || c == '\t' || c == '\n' || c == '\U{000B}' || c == '\U{000C}' || c == '\r'
    || c == ' ' || c == '\U{00A0}' || c == '\U{1680}'
    || ('\U{2000}' <= c <= '\U{200A}')
    || c == '\U{2028}' || c == '\U{2029}' || c == '\U{202F}' || c == '\U{205F}'
    || c == '\U{3000}' || c == '\U{FEFF}'
  }

  predicate AllWhitespace(s: string) {
    forall i :: 0 <= i < |s| ==> IsWhitespace(s[i])
  }

  /** Neither end of `s` is whitespace. */
  predicate Trimmed(s: string) {
    s == [] || (!IsWhitespace(s[0]) && !IsWhitespace(s[|s| - 1]))
  }

  /** `s.split(sep)` for a one-character separator: the pieces between
      consecutive separators, empty pieces included. */
  function Split(s: string, sep: char): (parts: seq<string>)
    ensures |parts| >= 1
    ensures forall i :: 0 <= i < |parts| ==> sep !in parts[i]
  {
    if s == [] then [[]]
    else
      var rest := Split(s[1..], sep);
      if s[0] == sep then [[]] + rest
      else [[s[0]] + rest[0]] + rest[1..]
  }

  /** `parts.join(sep)`: the pieces with one separator between neighbours. */
  function Join(parts: seq<string>, sep: char): string {
    if |parts| == 0 then []
    else if |parts| == 1 then parts[0]
    else parts[0] + [sep] + Join(parts[1..], sep)
  }

  /** One piece per separator, plus one. */
  lemma {:induction false} SplitCount(s: string, sep: char)
    ensures |Split(s, sep)| == multiset(s)[sep] + 1
  {
    if s != [] {
      SplitCount(s[1..], sep);
      assert s == [s[0]] + s[1..];
    }
  }

  /** Splitting loses nothing: joining the pieces gives back the input. */
  lemma {:induction false} JoinSplit(s: string, sep: char)
    ensures Join(Split(s, sep), sep) == s
  {
    if s != [] {
      var rest := Split(s[1..], sep);
      var parts := Split(s, sep);
      JoinSplit(s[1..], sep);
      if s[0] == sep {
        calc {
          Join(parts, sep);
          [] + [sep] + Join(rest, sep);
          [s[0]] + s[1..];
        }
      } else if |rest| == 1 {
        calc {
          Join(parts, sep);
          [s[0]] + rest[0];
          [s[0]] + s[1..];
        }
      } else {
        calc {
          Join(parts, sep);
          parts[0] + [sep] + Join(parts[1..], sep);
          { assert parts[1..] == rest[1..]; }
          ([s[0]] + rest[0]) + [sep] + Join(rest[1..], sep);
          [s[0]] + (rest[0] + [sep] + Join(rest[1..], sep));
          [s[0]] + Join(rest, sep);
          [s[0]] + s[1..];
        }
      }
      assert s == [s[0]] + s[1..];
    }
  }

  /** A piece without a separator splits into itself. */
  lemma {:induction false} SplitNoSeparator(p: string, sep: char)
    requires sep !in p
    ensures Split(p, sep) == [p]
  {
    if p != [] {
      SplitNoSeparator(p[1..], sep);
      assert p == [p[0]] + p[1..];
    }
  }

  /** Splitting stops at the first separator. */
  lemma {:induction false} SplitAfterPiece(p: string, t: string, sep: char)
    requires sep !in p
    ensures Split(p + [sep] + t, sep) == [p] + Split(t, sep)
  {
    var s := p + [sep] + t;
    if p == [] {
      assert s[1..] == t;
    } else {
      assert s[1..] == p[1..] + [sep] + t;
      SplitAfterPiece(p[1..], t, sep);
      assert p == [p[0]] + p[1..];
    }
  }

  /** Joining pieces that hold no separator and splitting again gives back
      the pieces: Split and Join are inverse both ways. */
  lemma {:induction false} SplitJoin(parts: seq<string>, sep: char)
    requires |parts| >= 1
    requires forall i :: 0 <= i < |parts| ==> sep !in parts[i]
    ensures Split(Join(parts, sep), sep) == parts
  {
    if |parts| == 1 {
      SplitNoSeparator(parts[0], sep);
    } else {
      SplitJoin(parts[1..], sep);
      SplitAfterPiece(parts[0], Join(parts[1..], sep), sep);
      assert parts == [parts[0]] + parts[1..];
    }
  }

  /** `trimStart()`: drops the longest whitespace prefix. The result does
      not start with whitespace; TrimStartDrops says what was dropped. */
  function TrimStart(s: string): (r: string)
    ensures |r| <= |s|
    ensures r == [] || !IsWhitespace(r[0])
  {
    if s != [] && IsWhitespace(s[0]) then TrimStart(s[1..]) else s
  }

  /** `trimStart()` drops a whitespace prefix and keeps the rest. */
  lemma {:induction false} TrimStartDrops(s: string)
    ensures TrimStart(s) == s[|s| - |TrimStart(s)|..]
    ensures AllWhitespace(s[..|s| - |TrimStart(s)|])
  {
    if s != [] && IsWhitespace(s[0]) {
      TrimStartDrops(s[1..]);
      assert s[..|s| - |TrimStart(s)|] == [s[0]] + s[1..][..|s| - 1 - |TrimStart(s)|];
    }
  }

  /** `trimEnd()`: drops the longest whitespace suffix. The result does not
      end with whitespace; TrimEndDrops says what was dropped. */
  function TrimEnd(s: string): (r: string)
    ensures |r| <= |s|
    ensures r == [] || !IsWhitespace(r[|r| - 1])
  {
    if s != [] && IsWhitespace(s[|s| - 1]) then TrimEnd(s[..|s| - 1]) else s
  }

  /** `trimEnd()` drops a whitespace suffix and keeps the rest. */
  lemma {:induction false} TrimEndDrops(s: string)
    ensures TrimEnd(s) == s[..|TrimEnd(s)|]
    ensures AllWhitespace(s[|TrimEnd(s)|..])
  {
    if s != [] && IsWhitespace(s[|s| - 1]) {
      TrimEndDrops(s[..|s| - 1]);
      assert s[|TrimEnd(s)|..] == s[..|s| - 1][|TrimEnd(s)|..] + [s[|s| - 1]];
    }
  }

  /** `r` is `s` less a whitespace prefix of length `lead` and a whitespace suffix. */
  predicate StripsTo(s: string, r: string, lead: nat) {
    && lead + |r| <= |s|
    && s[lead..lead + |r|] == r
    && AllWhitespace(s[..lead])
    && AllWhitespace(s[lead + |r|..])
  }

  /** `trim()`: drops whitespace at both ends, and adds no character. */
  function Trim(s: string): (r: string)
    ensures Trimmed(r)
    ensures forall i :: 0 <= i < |r| ==> r[i] in s
  {
    var t := TrimStart(s);
    TrimStartDrops(s);
    TrimEndDrops(t);
    TrimEnd(t)
  }

  /** What `trim()` drops is a whitespace prefix and a whitespace suffix and
      nothing else. */
  lemma TrimStrips(s: string)
    ensures exists lead: nat :: StripsTo(s, Trim(s), lead)
  {
    var t := TrimStart(s);
    var r := TrimEnd(t);
    var lead := |s| - |t|;
    TrimStartDrops(s);
    TrimEndDrops(t);
    assert Trim(s) == r;
    assert s[lead..lead + |r|] == r by {
      assert t == s[lead..];
      assert r == t[..|r|];
    }
    assert AllWhitespace(s[..lead]);
    assert AllWhitespace(s[lead + |r|..]) by {
      assert s[lead + |r|..] == t[|r|..];
    }
    assert StripsTo(s, r, lead);
  }

  /** A whitespace prefix in front of a string that does not start with
      whitespace is exactly what `trimStart()` drops. */
  lemma {:induction false} TrimStartPrefix(w: string, t: string)
    requires AllWhitespace(w)
    requires t == [] || !IsWhitespace(t[0])
    ensures TrimStart(w + t) == t
  {
    if w != [] {
      assert (w + t)[1..] == w[1..] + t;
      TrimStartPrefix(w[1..], t);
    }
  }

  /** A whitespace suffix behind a string that does not end with whitespace
      is exactly what `trimEnd()` drops. */
  lemma {:induction false} TrimEndSuffix(t: string, w: string)
    requires AllWhitespace(w)
    requires t == [] || !IsWhitespace(t[|t| - 1])
    ensures TrimEnd(t + w) == t
  {
    if w != [] {
      assert (t + w)[..|t + w| - 1] == t + w[..|w| - 1];
      TrimEndSuffix(t, w[..|w| - 1]);
    }
  }

  /** `trim()` is the only way to strip whitespace from both ends so that
      neither end of what remains is whitespace. */
  lemma TrimUnique(s: string, r: string, lead: nat)
    requires StripsTo(s, r, lead) && Trimmed(r)
    ensures r == Trim(s)
  {
    var tail := s[lead + |r|..];
    if r == [] {
      assert AllWhitespace(s) by {
        assert s == s[..lead] + tail;
      }
      TrimStartPrefix(s, []);
      assert s + [] == s;
    } else {
      assert s == s[..lead] + (r + tail);
      TrimStartPrefix(s[..lead], r + tail);
      TrimEndSuffix(r, tail);
    }
  }

  /** A string whose ends are not whitespace is its own trim. */
  lemma TrimOfTrimmed(s: string)
    requires Trimmed(s)
    ensures Trim(s) == s
  {
  }

  /** The tags of a post as the create handler computes them: an empty field
      gives no tags; otherwise one tag per comma plus one, each the trimmed
      piece between commas, empty pieces kept. */
  function ParseTags(tags: string): (r: seq<string>)
    ensures tags == [] ==> r == []
    ensures tags != [] ==> |r| == multiset(tags)[','] + 1
    ensures tags != [] ==> |r| == |Split(tags, ',')|
                           && forall i :: 0 <= i < |r| ==> r[i] == Trim(Split(tags, ',')[i])
    ensures forall i :: 0 <= i < |r| ==> Trimmed(r[i]) && ',' !in r[i]
  {
    if tags == [] then []
    else
      var pieces := Split(tags, ',');
      SplitCount(tags, ',');
      seq(|pieces|, i requires 0 <= i < |pieces| => Trim(pieces[i]))
  }

  /** Joining a non-empty list of tags other than a single empty tag gives a
      non-empty field. */
  lemma JoinNonEmpty(r: seq<string>, sep: char)
    requires r != [] && r != [[]]
    ensures Join(r, sep) != []
  {
    if |r| > 1 {
      assert |Join(r, sep)| >= |r[0] + [sep]|;
    }
  }

  /** A non-empty field whose pieces are already trimmed parses to those pieces. */
  lemma ParseTrimmedPieces(field: string, r: seq<string>)
    requires field != [] && Split(field, ',') == r
    requires forall i :: 0 <= i < |r| ==> Trimmed(r[i])
    ensures ParseTags(field) == r
  {
    forall i | 0 <= i < |r| ensures Trim(r[i]) == r[i] {
      TrimOfTrimmed(r[i]);
    }
    ParseTagsOfPieces(field, r, r);
  }

  /** A non-empty field parses to the trims of its pieces. */
  lemma ParseTagsOfPieces(field: string, pieces: seq<string>, r: seq<string>)
    requires field != [] && Split(field, ',') == pieces
    requires |r| == |pieces| && forall i :: 0 <= i < |r| ==> Trim(pieces[i]) == r[i]
    ensures ParseTags(field) == r
  {
  }

  /** Writing parsed tags back as a comma-separated field and parsing that
      again gives the same tags, except when the only tag is empty (a field of
      whitespace alone parses to one empty tag, and its join is the empty
      field, which parses to no tags). */
  lemma TagsRoundTrip(tags: string)
    requires ParseTags(tags) != [[]]
    ensures ParseTags(Join(ParseTags(tags), ',')) == ParseTags(tags)
  {
    var r := ParseTags(tags);
    if r != [] {
      SplitJoin(r, ',');
      JoinNonEmpty(r, ',');
      ParseTrimmedPieces(Join(r, ','), r);
    }
  }

  /** A field with one comma parses to the trims of the two sides. */
  lemma ParseTwoPieces(field: string, left: string, right: string)
    requires field == left + [','] + right && ',' !in left && ',' !in right
    ensures ParseTags(field) == [Trim(left), Trim(right)]
  {
    SplitAfterPiece(left, right, ',');
    SplitNoSeparator(right, ',');
    assert |field| == |left| + 1 + |right|;
    var pieces := Split(field, ',');
    assert pieces == [left] + [right];
    var r := ParseTags(field);
    assert |r| == 2;
    assert r[0] == Trim(pieces[0]) && pieces[0] == left;
    assert r[1] == Trim(pieces[1]) && pieces[1] == right;
  }

  /** A field such as `"a, b"` gives the tags `"a"` and `"b"`: the space
      after the comma is trimmed away. */
  lemma ParseCommaSpace(a: char, b: char)
    requires !IsWhitespace(a) && a != ','
    requires !IsWhitespace(b) && b != ','
    ensures ParseTags([a, ',', ' ', b]) == [[a], [b]]
  {
    assert Trim([a]) == [a] by {
      TrimOfTrimmed([a]);
    }
    assert Trim([' ', b]) == [b] by {
      TrimUnique([' ', b], [b], 1);
    }
    assert ParseTags([a, ',', ' ', b]) == [Trim([a]), Trim([' ', b])] by {
      assert [a, ',', ' ', b] == [a] + [','] + [' ', b];
      ParseTwoPieces([a, ',', ' ', b], [a], [' ', b]);
    }
  }

  /** The tags field `"a, b"` gives the tags `"a"` and `"b"`. */
  lemma ParseCommaSpaceExample()
    ensures ParseTags("a, b") == ["a", "b"]
  {
    ParseCommaSpace('a', 'b');
  }
}
