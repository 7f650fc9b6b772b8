/**
 * Python's `str.split(sep)`, `sep.join(parts)` and `str.strip()` on strings,
 * with the facts about them that the explanation text relies on.
 */
module Strings {

  /** `sep` occurs in `s` starting at index `i`. */
  predicate OccursAt(s: string, sep: string, i: nat)
  {
    i + |sep| <= |s| && s[i..i + |sep|] == sep
  }

  /** Python's `sep in s`. */
  predicate Contains(s: string, sep: string)
  {
    exists i: nat | i <= |s| :: OccursAt(s, sep, i)
  }

  /** No proper non-empty prefix of `sep` is also a suffix of it, so two occurrences never overlap. */
  predicate Unbordered(sep: string)
  {
    forall k :: 0 < k < |sep| ==> sep[..k] != sep[|sep| - k..]
  }

  /**
   * Python's `s.split(sep)` for a non-empty separator: cut at each occurrence,
   * scanning left to right. The result is never empty; `"".split(sep) == [""]`.
   */
  function Split(s: string, sep: string): (parts: seq<string>)
    requires sep != []
    ensures |parts| >= 1
    decreases |s|
  {
    if |s| < |sep| then [s]
    else if s[..|sep|] == sep then [""] + Split(s[|sep|..], sep)
    else
      var rest := Split(s[1..], sep);
      [[s[0]] + rest[0]] + rest[1..]
  }

  /**
   * Python's `sep.join(parts)`: no parts give the empty text, one part is kept as it is, and
   * a join of several starts with the first part.
   */
  function Join(parts: seq<string>, sep: string): (r: string)
    ensures parts == [] ==> r == []
    ensures |parts| == 1 ==> r == parts[0]
    ensures |parts| >= 1 ==> parts[0] <= r
  {
    if |parts| == 0 then ""
    else if |parts| == 1 then parts[0]
    else parts[0] + sep + Join(parts[1..], sep)
  }

  lemma JoinConsHead(c: char, parts: seq<string>, sep: string)
    requires |parts| >= 1
    ensures Join([[c] + parts[0]] + parts[1..], sep) == [c] + Join(parts, sep)
  {
    var q := [[c] + parts[0]] + parts[1..];
    assert q[1..] == parts[1..];
  }

  /** Joining the fragments of a split with the same separator gives the text back. */
  lemma {:induction false} JoinSplit(s: string, sep: string)
    requires sep != []
    ensures Join(Split(s, sep), sep) == s
    decreases |s|
  {
    if |s| < |sep| {
    } else if s[..|sep|] == sep {
      var rest := Split(s[|sep|..], sep);
      assert Split(s, sep) == [""] + rest;
      JoinSplit(s[|sep|..], sep);
      assert ([""] + rest)[1..] == rest;
      assert s == s[..|sep|] + s[|sep|..];
    } else {
      var rest := Split(s[1..], sep);
      assert Split(s, sep) == [[s[0]] + rest[0]] + rest[1..];
      JoinSplit(s[1..], sep);
      JoinConsHead(s[0], rest, sep);
      assert s == [s[0]] + s[1..];
    }
  }

  /** The first fragment of a split is a prefix of the text, and no fragment contains the separator. */
  lemma {:induction false} SplitFragments(s: string, sep: string)
    requires sep != []
    ensures Split(s, sep)[0] <= s
    ensures forall p :: p in Split(s, sep) ==> !Contains(p, sep)
    decreases |s|
  {
    var parts := Split(s, sep);
    if |s| < |sep| {
      forall i: nat ensures !OccursAt(s, sep, i) {}
    } else if s[..|sep|] == sep {
      var rest := Split(s[|sep|..], sep);
      SplitFragments(s[|sep|..], sep);
      assert parts == [""] + rest;
      forall i: nat ensures !OccursAt("", sep, i) {}
    } else {
      var rest := Split(s[1..], sep);
      SplitFragments(s[1..], sep);
      var head := [s[0]] + rest[0];
      assert rest[0] in rest;
      assert parts == [head] + rest[1..];
      assert head <= s by {
        assert s == [s[0]] + s[1..];
      }
      forall i: nat ensures !OccursAt(head, sep, i) {
        if i == 0 {
          if |sep| <= |head| {
            assert head == s[..|head|];
            assert head[0..|sep|] == s[..|sep|];
          }
        } else if OccursAt(head, sep, i) {
          assert head[i..i + |sep|] == rest[0][i - 1..i - 1 + |sep|];
          assert OccursAt(rest[0], sep, i - 1);
        }
      }
      forall p | p in parts ensures !Contains(p, sep) {
        if p != head {
          assert p in rest;
        }
      }
    }
  }

  /** A text free of the separator splits into itself alone. */
  lemma {:induction false} SplitWithoutSeparator(p: string, sep: string)
    requires sep != [] && !Contains(p, sep)
    ensures Split(p, sep) == [p]
    decreases |p|
  {
    if |p| >= |sep| {
      assert !OccursAt(p, sep, 0);
      assert p[..|sep|] != sep;
      TailWithoutSeparator(p, sep);
      SplitWithoutSeparator(p[1..], sep);
      assert p == [p[0]] + p[1..];
    }
  }

  /** Dropping the first character of a separator-free text keeps it separator-free. */
  lemma TailWithoutSeparator(p: string, sep: string)
    requires p != [] && !Contains(p, sep)
    ensures !Contains(p[1..], sep)
  {
    forall i: nat ensures !OccursAt(p[1..], sep, i) {
      if OccursAt(p[1..], sep, i) {
        assert p[1..][i..i + |sep|] == p[i + 1..i + 1 + |sep|];
        assert OccursAt(p, sep, i + 1);
      }
    }
  }

  /** A non-empty separator-free `p` followed by an unbordered separator does not start with it. */
  lemma NoSeparatorAtStart(p: string, rest: string, sep: string)
    requires sep != [] && Unbordered(sep) && p != [] && !Contains(p, sep)
    ensures (p + sep + rest)[..|sep|] != sep
  {
    var s := p + sep + rest;
    if |p| >= |sep| {
      assert !OccursAt(p, sep, 0);
      assert s[..|sep|] == p[..|sep|];
    } else {
      var k := |sep| - |p|;
      assert sep[..k] != sep[|sep| - k..];
      assert s[..|sep|][|p|..] == sep[..k];
    }
  }

  /** Splitting `p + sep + rest`, where `p` is free of an unbordered separator, cuts exactly after `p`. */
  lemma {:induction false} SplitAfterFragment(p: string, rest: string, sep: string)
    requires sep != [] && Unbordered(sep) && !Contains(p, sep)
    ensures Split(p + sep + rest, sep) == [p] + Split(rest, sep)
    decreases |p|
  {
    var s := p + sep + rest;
    if p == [] {
      assert s == sep + rest;
      assert s[..|sep|] == sep;
      assert s[|sep|..] == rest;
    } else {
      NoSeparatorAtStart(p, rest, sep);
      TailWithoutSeparator(p, sep);
      SplitAfterFragment(p[1..], rest, sep);
      assert s[1..] == p[1..] + sep + rest;
      assert [s[0]] + p[1..] == p;
    }
  }

  /** Splitting a join of separator-free fragments gives the fragments back. */
  lemma {:induction false} SplitJoin(parts: seq<string>, sep: string)
    requires sep != [] && Unbordered(sep) && |parts| >= 1
    requires forall p :: p in parts ==> !Contains(p, sep)
    ensures Split(Join(parts, sep), sep) == parts
  {
    if |parts| == 1 {
      SplitWithoutSeparator(parts[0], sep);
    } else {
      assert parts[0] in parts;
      forall p | p in parts[1..] ensures !Contains(p, sep) {
        assert p in parts;
      }
      SplitJoin(parts[1..], sep);
      SplitAfterFragment(parts[0], Join(parts[1..], sep), sep);
      assert parts == [parts[0]] + parts[1..];
    }
  }

  /** Joining a leading run of the fragments gives a prefix of the joined whole. */
  lemma {:induction false} JoinPrefix(parts: seq<string>, k: nat, sep: string)
    requires k <= |parts|
    ensures Join(parts[..k], sep) <= Join(parts, sep)
  {
    if k == 0 || k == |parts| {
      assert parts[..|parts|] == parts;
    } else if k == 1 {
      assert parts[..1] == [parts[0]];
    } else {
      JoinPrefix(parts[1..], k - 1, sep);
      assert parts[..k][1..] == parts[1..][..k - 1];
    }
  }

  /** A one-character separator occurs in a text exactly when that character does. */
  lemma ContainsChar(s: string, c: char)
    ensures Contains(s, [c]) <==> c in s
  {
    if c in s {
      var i :| 0 <= i < |s| && s[i] == c;
      assert OccursAt(s, [c], i);
    }
    if Contains(s, [c]) {
      var i: nat :| i <= |s| && OccursAt(s, [c], i);
      assert s[i..i + 1] == [c];
      assert s[i] == c;
    }
  }

  /**
   * The ASCII characters that Python's `str.strip()` removes: space, tab, line feed,
   * carriage return, vertical tab, form feed, and the file, group, record and unit
   * separators U+001C to U+001F.
   */
  predicate IsSpace(c: char)
  {
    c == ' ' || c == '\t' || c == '\n' || c == '\r' || c == '\U{B}' || c == '\U{C}'
    || c == '\U{1C}' || c == '\U{1D}' || c == '\U{1E}' || c == '\U{1F}'
  }

  /** `s.lstrip()`: the suffix of `s` left after its leading whitespace. */
  function TrimStart(s: string): (r: string)
    ensures |r| <= |s| && r == s[|s| - |r|..]
    ensures r == [] || !IsSpace(r[0])
    ensures forall i :: 0 <= i < |s| - |r| ==> IsSpace(s[i])
    decreases |s|
  {
    if |s| > 0 && IsSpace(s[0]) then TrimStart(s[1..]) else s
  }

  /** `s.rstrip()`: the prefix of `s` left before its trailing whitespace. */
  function TrimEnd(s: string): (r: string)
    ensures r <= s
    ensures r == [] || !IsSpace(r[|r| - 1])
    ensures forall i :: |r| <= i < |s| ==> IsSpace(s[i])
    decreases |s|
  {
    if |s| > 0 && IsSpace(s[|s| - 1]) then TrimEnd(s[..|s| - 1]) else s
  }

  /** `r` is `s[i..j]`, and everything of `s` before `i` and from `j` on is whitespace. */
  predicate TrimmedSlice(s: string, r: string, i: nat, j: nat)
  {
    && i <= j <= |s| && r == s[i..j]
    && (forall k :: 0 <= k < i ==> IsSpace(s[k]))
    && (forall k :: j <= k < |s| ==> IsSpace(s[k]))
  }

  /**
   * `s.strip()`: the result is a slice of `s` with only whitespace cut from either end, and
   * neither of its own ends is whitespace; so a text without whitespace at its ends is kept.
   */
  function Strip(s: string): (r: string)
    ensures exists i: nat, j: nat :: TrimmedSlice(s, r, i, j)
    ensures r == [] || (!IsSpace(r[0]) && !IsSpace(r[|r| - 1]))
    ensures (s == [] || (!IsSpace(s[0]) && !IsSpace(s[|s| - 1]))) ==> r == s
    ensures Contains(s, r)
  {
    var t := TrimStart(s);
    var u := TrimEnd(t);
    assert t == [] || t[0] == u[0] || u == [];
    StripSlice(s, t, u);
    u
  }

  /** Cutting leading whitespace and then trailing whitespace leaves a trimmed slice of the text. */
  lemma StripSlice(s: string, t: string, u: string)
    requires |t| <= |s| && t == s[|s| - |t|..] && (forall k :: 0 <= k < |s| - |t| ==> IsSpace(s[k]))
    requires u <= t && (forall k :: |u| <= k < |t| ==> IsSpace(t[k]))
    ensures TrimmedSlice(s, u, |s| - |t|, |s| - |t| + |u|)
    ensures OccursAt(s, u, |s| - |t|)
  {
    var i := |s| - |t|;
    assert s[i..i + |u|] == t[..|u|];
    forall k | i + |u| <= k < |s| ensures IsSpace(s[k]) {
      assert s[k] == t[k - i];
    }
  }
}
