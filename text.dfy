/**
  The string operations the upload handler applies to the decoded upload:
  `str::trim`, `str::lines` and `[String]::join("\n")`.
 */
module Text {

  /**
    `char::is_whitespace`: the characters with the Unicode White_Space
    property (tab, line feed, vertical tab, form feed, carriage return,
    space, NEL, no-break space, Ogham space mark, the en quad to hair space
    range, line and paragraph separators, narrow no-break space, medium
    mathematical space and ideographic space).
   */
  predicate IsWhitespace(c: char)
    ensures c as int < 0x80 ==> (IsWhitespace(c) <==> c == ' ' || 0x09 <= c as int <= 0x0D)
  {
    var n := c as int;
    || 0x09 <= n <= 0x0D
    || n == 0x20
    || n == 0x85
    || n == 0xA0
    || n == 0x1680
    || 0x2000 <= n <= 0x200A
    || n == 0x2028
    || n == 0x2029
    || n == 0x202F
    || n == 0x205F
    || n == 0x3000
  }

  /** Neither end of `s` is whitespace. */
  predicate IsTrimmed(s: string) {
    s == [] || (!IsWhitespace(s[0]) && !IsWhitespace(s[|s| - 1]))
  }

  /** Length of the longest all-whitespace prefix of `s`. */
  function LeadingSpace(s: string): (n: nat)
    ensures n <= |s|
    ensures forall i :: 0 <= i < n ==> IsWhitespace(s[i])
    ensures n < |s| ==> !IsWhitespace(s[n])
  {
    if s != [] && IsWhitespace(s[0]) then 1 + LeadingSpace(s[1..]) else 0
  }

  /** Length of the longest all-whitespace suffix of `s`. */
  function TrailingSpace(s: string): (n: nat)
    ensures n <= |s|
    ensures forall i :: |s| - n <= i < |s| ==> IsWhitespace(s[i])
    ensures n < |s| ==> !IsWhitespace(s[|s| - 1 - n])
  {
    if s != [] && IsWhitespace(s[|s| - 1]) then 1 + TrailingSpace(s[..|s| - 1]) else 0
  }

  /**
    `str::trim`: `s` without its leading and trailing whitespace; neither end
    of the result is whitespace. `TrimSlice` says what was removed.
   */
  function Trim(s: string): (r: string)
    ensures IsTrimmed(r)
  {
    var lo := LeadingSpace(s);
    s[lo..|s| - TrailingSpace(s[lo..])]
  }

  /** The trimmed string is the slice `s[lo..hi]`, and everything outside
      the slice is whitespace. */
  lemma TrimSlice(s: string)
    ensures exists lo, hi ::
      && 0 <= lo <= hi <= |s| && Trim(s) == s[lo..hi]
      && (forall i :: 0 <= i < lo ==> IsWhitespace(s[i]))
      && (forall i :: hi <= i < |s| ==> IsWhitespace(s[i]))
  {
    var lo := LeadingSpace(s);
    var t := s[lo..];
    var hi := |s| - TrailingSpace(t);
    assert forall i :: hi <= i < |s| ==> s[i] == t[i - lo];
    assert t[..|t| - TrailingSpace(t)] == s[lo..hi];
    assert 0 <= lo <= hi <= |s| && Trim(s) == s[lo..hi];
  }

  /** Trimming adds no character. */
  lemma TrimChars(s: string)
    ensures forall i :: 0 <= i < |Trim(s)| ==> Trim(s)[i] in s
  {
    var lo := LeadingSpace(s);
    var hi := |s| - TrailingSpace(s[lo..]);
    assert forall i :: 0 <= i < |Trim(s)| ==> Trim(s)[i] == s[lo + i];
  }

  /** Trimming a trimmed string changes nothing, so `trim` is idempotent. */
  lemma TrimTrimmed(s: string)
    requires IsTrimmed(s)
    ensures Trim(s) == s
  {
  }

  /** A string made of whitespace only trims to the empty string. */
  lemma TrimAllWhitespace(s: string)
    requires forall i :: 0 <= i < |s| ==> IsWhitespace(s[i])
    ensures Trim(s) == ""
  {
  }

  // ---------------------------------------------------------------------------
  // Splitting into lines and joining them back
  // ---------------------------------------------------------------------------

  /** `s` cut at every `'\n'`: the pieces between separators, in order. */
  function Split(s: string): (r: seq<string>)
    ensures |r| >= 1
    ensures forall k :: 0 <= k < |r| ==> '\n' !in r[k]
    ensures forall k, i :: 0 <= k < |r| && 0 <= i < |r[k]| ==> r[k][i] in s
  {
    if s == [] then [""]
    else
      var rest := Split(s[1..]);
      if s[0] == '\n' then [""] + rest
      else [[s[0]] + rest[0]] + rest[1..]
  }

  /** `lines.join("\n")`: the lines with a single `'\n'` between neighbours
      and none after the last. */
  function Join(lines: seq<string>): (r: string)
    ensures |lines| >= 1 ==> lines[0] <= r
  {
    if |lines| == 0 then ""
    else if |lines| == 1 then lines[0]
    else lines[0] + "\n" + Join(lines[1..])
  }

  /**
    `str::lines`: the pieces of `s` between `'\n'` separators, where a
    final empty piece (after a trailing `'\n'`, or the whole of an empty
    string) is not a line. A `'\r'` before the `'\n'` stays in the line;
    every consumer here trims it away (U+000D is whitespace).
   */
  function Lines(s: string): (r: seq<string>)
    ensures forall k :: 0 <= k < |r| ==> '\n' !in r[k]
    ensures forall k, i :: 0 <= k < |r| && 0 <= i < |r[k]| ==> r[k][i] in s
  {
    var parts := Split(s);
    if parts[|parts| - 1] == "" then parts[..|parts| - 1] else parts
  }

  /** Joining the pieces of `s` with `'\n'` gives back `s`. */
  lemma {:induction false} JoinSplit(s: string)
    ensures Join(Split(s)) == s
    decreases |s|
  {
    if s != [] {
      var rest := Split(s[1..]);
      JoinSplit(s[1..]);
      if s[0] == '\n' {
        assert Split(s) == [""] + rest;
        assert s == "\n" + s[1..];
      } else {
        var parts := Split(s);
        assert parts[0] == [s[0]] + rest[0] && parts[1..] == rest[1..];
        if |rest| == 1 {
          assert s == [s[0]] + s[1..];
        } else {
          assert Join(rest) == rest[0] + "\n" + Join(rest[1..]);
          assert s == [s[0]] + s[1..];
        }
      }
    }
  }

  /** A prefix without `'\n'` extends the first piece of what follows it. */
  lemma {:induction false} SplitPrefix(a: string, t: string)
    requires '\n' !in a
    ensures Split(a + t) == [a + Split(t)[0]] + Split(t)[1..]
    decreases |a|
  {
    if a != [] {
      SplitPrefix(a[1..], t);
      assert (a + t)[1..] == a[1..] + t;
      assert (a + t)[0] == a[0];
      assert [a[0]] + (a[1..] + Split(t)[0]) == a + Split(t)[0];
    } else {
      assert a + t == t;
      assert a + Split(t)[0] == Split(t)[0];
      assert [Split(t)[0]] + Split(t)[1..] == Split(t);
    }
  }

  /** Splitting the join of lines that contain no `'\n'` gives the lines back. */
  lemma {:induction false} SplitJoin(lines: seq<string>)
    requires |lines| >= 1
    requires forall k :: 0 <= k < |lines| ==> '\n' !in lines[k]
    ensures Split(Join(lines)) == lines
    decreases |lines|
  {
    if |lines| == 1 {
      SplitPrefix(lines[0], "");
      assert lines[0] + "" == lines[0];
    } else {
      var tail := Join(lines[1..]);
      SplitJoin(lines[1..]);
      SplitPrefix(lines[0], "\n" + tail);
      assert ("\n" + tail)[1..] == tail;
      assert Split("\n" + tail) == [""] + Split(tail);
      assert lines[0] + "\n" + tail == lines[0] + ("\n" + tail);
      assert lines[0] + "" == lines[0];
      assert [lines[0]] + lines[1..] == lines;
    }
  }

  /** The join ends with the last line. */
  lemma {:induction false} JoinEndsWithLast(lines: seq<string>)
    requires |lines| >= 1
    ensures |lines[|lines| - 1]| <= |Join(lines)|
    ensures Join(lines)[|Join(lines)| - |lines[|lines| - 1]|..] == lines[|lines| - 1]
    decreases |lines|
  {
    if |lines| > 1 {
      JoinEndsWithLast(lines[1..]);
      assert lines[1..][|lines| - 2] == lines[|lines| - 1];
    }
  }

  /** Appending one more line to a non-empty list. */
  lemma {:induction false} JoinSnoc(lines: seq<string>, last: string)
    requires |lines| >= 1
    ensures Join(lines + [last]) == Join(lines) + "\n" + last
    decreases |lines|
  {
    if |lines| > 1 {
      JoinSnoc(lines[1..], last);
      assert (lines + [last])[1..] == lines[1..] + [last];
    }
  }

  /** The lines of `s`, joined, give back `s` up to a trailing `'\n'`. */
  lemma LinesJoin(s: string)
    ensures s == if |s| > 0 && s[|s| - 1] == '\n' then Join(Lines(s)) + "\n" else Join(Lines(s))
  {
    var parts := Split(s);
    JoinSplit(s);
    var n := |parts|;
    if parts[n - 1] == "" {
      if n == 1 {
        assert s == "";
      } else {
        JoinSnoc(parts[..n - 1], "");
        assert parts[..n - 1] + [""] == parts;
        assert s == Join(parts[..n - 1]) + "\n";
      }
    } else {
      // The last piece is non-empty, so s does not end in a separator.
      if |s| > 0 && s[|s| - 1] == '\n' {
        SplitTrailingSeparator(s);
      }
    }
  }

  /** A string that ends in `'\n'` splits into at least two pieces, the
      last of them empty. */
  lemma {:induction false} SplitTrailingSeparator(s: string)
    requires |s| > 0 && s[|s| - 1] == '\n'
    ensures |Split(s)| >= 2 && Split(s)[|Split(s)| - 1] == ""
    decreases |s|
  {
    if |s| > 1 {
      SplitTrailingSeparator(s[1..]);
    } else {
      assert s[1..] == [];
    }
  }

  /** Joining lines that contain no `'\n'` and end in a non-empty line, then
      taking the lines again, gives back the same lines. */
  lemma LinesOfJoin(lines: seq<string>)
    requires forall k :: 0 <= k < |lines| ==> '\n' !in lines[k]
    requires lines != [] ==> lines[|lines| - 1] != ""
    ensures Lines(Join(lines)) == lines
  {
    if lines != [] {
      SplitJoin(lines);
    }
  }
}
