/**
 * JavaScript's `String.prototype.split` with a one-character separator, and
 * its inverse `Array.prototype.join`. `"".split(" ")` is `[""]`, and every
 * separator occurrence starts a new field, so `"a  b"` gives `["a", "", "b"]`.
 */
module Text {
  import opened Wrappers

  /** JavaScript truthiness of an optional string: present and non-empty. */
  predicate Truthy(s: Option<string>) {
    s.Some? && s.value != ""
  }

  function Split(s: string, sep: char): (parts: seq<string>)
    ensures |parts| >= 1
    ensures forall i :: 0 <= i < |parts| ==> sep !in parts[i]
    decreases |s|
  {
    if |s| == 0 then [""]
    else
      var rest := Split(s[1..], sep);
      if s[0] == sep then [""] + rest
      else [[s[0]] + rest[0]] + rest[1..]
  }

  function Join(parts: seq<string>, sep: char): string
    requires |parts| >= 1
    decreases |parts|
  {
    if |parts| == 1 then parts[0] else parts[0] + [sep] + Join(parts[1..], sep)
  }

  /** Joining the fields with the separator gives back the original string. */
  lemma {:induction false} JoinSplit(s: string, sep: char)
    ensures Join(Split(s, sep), sep) == s
    decreases |s|
  {
    if |s| > 0 {
      var rest := Split(s[1..], sep);
      JoinSplit(s[1..], sep);
      if s[0] == sep {
        assert Split(s, sep)[1..] == rest;
      } else {
        var parts := Split(s, sep);
        if |rest| == 1 {
          assert parts == [[s[0]] + rest[0]];
        } else {
          assert parts[1..] == rest[1..];
          assert Join(rest, sep) == rest[0] + [sep] + Join(rest[1..], sep);
        }
      }
    }
  }

  /** Splitting a join of separator-free fields gives back the fields. */
  lemma {:induction false} SplitJoin(parts: seq<string>, sep: char)
    requires |parts| >= 1
    requires forall i :: 0 <= i < |parts| ==> sep !in parts[i]
    ensures Split(Join(parts, sep), sep) == parts
    decreases |parts|, |parts[0]|
  {
    if |parts[0]| == 0 {
      if |parts| > 1 {
        var s := Join(parts, sep);
        assert s == [sep] + Join(parts[1..], sep);
        assert s[1..] == Join(parts[1..], sep);
        SplitJoin(parts[1..], sep);
      }
    } else {
      var s := Join(parts, sep);
      var p0 := parts[0];
      var parts' := [p0[1..]] + parts[1..];
      assert p0 == [p0[0]] + p0[1..];
      if |parts| == 1 {
        assert s[1..] == Join(parts', sep);
      } else {
        assert Join(parts', sep) == p0[1..] + [sep] + Join(parts[1..], sep);
        assert s[1..] == Join(parts', sep);
      }
      assert p0[0] in p0;
      SplitJoin(parts', sep);
      assert parts == [[p0[0]] + parts'[0]] + parts'[1..];
    }
  }

  /** A string yields a single field exactly when it holds no separator. */
  lemma {:induction false} SplitSingleField(s: string, sep: char)
    ensures |Split(s, sep)| == 1 <==> sep !in s
    decreases |s|
  {
    if |s| > 0 {
      SplitSingleField(s[1..], sep);
      assert sep in s <==> s[0] == sep || sep in s[1..];
    }
  }

  /**
   * When two strings are each a head, a separator and a separator-free tail,
   * the last separator splits both at the same place.
   */
  lemma SplitAtLastSeparator(h1: string, t1: string, h2: string, t2: string, sep: char)
    requires sep !in t1 && sep !in t2
    requires h1 + [sep] + t1 == h2 + [sep] + t2
    ensures h1 == h2 && t1 == t2
  {
    var s := h1 + [sep] + t1;
    assert forall j :: |h1| < j < |s| ==> s[j] == t1[j - |h1| - 1] && s[j] in t1;
    assert forall j :: |h2| < j < |s| ==> s[j] == t2[j - |h2| - 1] && s[j] in t2;
    assert s[|h1|] == sep && s[|h2|] == sep;
    assert h1 == s[..|h1|] && h2 == s[..|h2|];
    assert t1 == s[|h1| + 1..] && t2 == s[|h2| + 1..];
  }

  /**
   * When two strings are each a separator-free head, a separator and a tail,
   * the first separator splits both at the same place.
   */
  lemma SplitAtFirstSeparator(h1: string, t1: string, h2: string, t2: string, sep: char)
    requires sep !in h1 && sep !in h2
    requires h1 + [sep] + t1 == h2 + [sep] + t2
    ensures h1 == h2 && t1 == t2
  {
    var s := h1 + [sep] + t1;
    assert forall j :: 0 <= j < |h1| ==> s[j] == h1[j] && s[j] in h1;
    assert forall j :: 0 <= j < |h2| ==> s[j] == h2[j] && s[j] in h2;
    assert s[|h1|] == sep && s[|h2|] == sep;
    assert h1 == s[..|h1|] && h2 == s[..|h2|];
    assert t1 == s[|h1| + 1..] && t2 == s[|h2| + 1..];
  }

  /** The text before and after the first separator, or None when there is none. */
  function SplitFirst(s: string, sep: char): (r: Option<(string, string)>)
    ensures r.None? <==> sep !in s
    ensures r.Some? ==> sep !in r.value.0 && s == r.value.0 + [sep] + r.value.1
    decreases |s|
  {
    if |s| == 0 then None
    else if s[0] == sep then Some(([], s[1..]))
    else
      match SplitFirst(s[1..], sep)
      case None => None
      case Some(ht) => Some(([s[0]] + ht.0, ht.1))
  }

  /** Cutting at the first separator undoes gluing a separator-free head to a tail. */
  lemma SplitFirstGlued(h: string, t: string, sep: char)
    requires sep !in h
    ensures SplitFirst(h + [sep] + t, sep) == Some((h, t))
  {
    var r := SplitFirst(h + [sep] + t, sep);
    SplitAtFirstSeparator(r.value.0, r.value.1, h, t, sep);
  }
}
