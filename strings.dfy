/**
 * The .NET string primitives the reader relies on, on `string` = `seq<char>`:
 * ordinal `String.Contains`, `String.Split(char, StringSplitOptions.None)`,
 * `String.Split(string[], options)` with its ordered choice among separators,
 * and the removal of empty entries.
 */
module Strings {
  import opened Wrappers

  // ---------------------------------------------------------------------------
  // Substring search
  // ---------------------------------------------------------------------------

  /** Ordinal `String.Contains`: `sub` occurs in `s` at some position. */
  predicate Contains(s: string, sub: string)
    ensures sub == [] ==> Contains(s, sub)
    ensures Contains(s, sub) ==> |sub| <= |s|
    decreases |s|
  {
    sub <= s || (s != [] && Contains(s[1..], sub))
  }

  /** `sub` occurs in `s` starting at index `i`. */
  predicate OccursAt(s: string, sub: string, i: int)
  {
    0 <= i <= |s| - |sub| && s[i..i + |sub|] == sub
  }

  /** The scanning definition of Contains agrees with the positional one. */
  lemma {:induction false} ContainsIff(s: string, sub: string)
    ensures Contains(s, sub) <==> exists i :: OccursAt(s, sub, i)
  {
    if s == [] {
      if sub == [] {
        assert OccursAt(s, sub, 0);
      }
    } else {
      ContainsIff(s[1..], sub);
      if sub <= s {
        assert OccursAt(s, sub, 0);
      } else if Contains(s[1..], sub) {
        var i :| OccursAt(s[1..], sub, i);
        assert s[1..][i..i + |sub|] == s[i + 1..i + 1 + |sub|];
        assert OccursAt(s, sub, i + 1);
      }
      if exists i :: OccursAt(s, sub, i) {
        var i :| OccursAt(s, sub, i);
        if i == 0 {
          assert sub <= s;
        } else {
          assert s[1..][i - 1..i - 1 + |sub|] == s[i..i + |sub|];
          assert OccursAt(s[1..], sub, i - 1);
        }
      }
    }
  }

  /** A string that contains `sub` contains every character of `sub`. */
  lemma {:induction false} ContainsChar(s: string, sub: string, c: char)
    requires Contains(s, sub)
    requires c in sub
    ensures c in s
  {
    if sub <= s {
      var j :| 0 <= j < |sub| && sub[j] == c;
      assert s[j] == c;
    } else {
      ContainsChar(s[1..], sub, c);
      assert c in s[1..];
    }
  }

  // ---------------------------------------------------------------------------
  // Splitting on one character, and joining
  // ---------------------------------------------------------------------------

  /** Number of occurrences of `c` in `s`. */
  function Count(s: string, c: char): nat
  {
    if s == [] then 0 else (if s[0] == c then 1 else 0) + Count(s[1..], c)
  }

  /** Occurrences in a concatenation add up. */
  lemma {:induction false} CountAppend(s: string, t: string, c: char)
    ensures Count(s + t, c) == Count(s, c) + Count(t, c)
    decreases |s|
  {
    if s == [] {
      assert s + t == t;
    } else {
      CountAppend(s[1..], t, c);
      assert (s + t)[1..] == s[1..] + t;
    }
  }

  /** A character that does not occur has count zero, and conversely. */
  lemma {:induction false} CountAbsent(s: string, c: char)
    ensures Count(s, c) == 0 <==> c !in s
    decreases |s|
  {
    if s != [] {
      CountAbsent(s[1..], c);
      assert s == [s[0]] + s[1..];
    }
  }

  /**
   * `String.Split(c, StringSplitOptions.None)`: every occurrence of `c` ends
   * a field, empty fields are kept, so there is always at least one field.
   */
  function Split(s: string, c: char): (fields: seq<string>)
    ensures |fields| == Count(s, c) + 1
    ensures forall i :: 0 <= i < |fields| ==> c !in fields[i]
    decreases |s|
  {
    if s == [] then [""]
    else
      var rest := Split(s[1..], c);
      if s[0] == c then [""] + rest
      else [[s[0]] + rest[0]] + rest[1..]
  }

  /** `String.Join(sep, parts)`. */
  function Join(parts: seq<string>, sep: string): string
  {
    if |parts| == 0 then ""
    else if |parts| == 1 then parts[0]
    else parts[0] + sep + Join(parts[1..], sep)
  }

  /** Prepending a character to the first part prepends it to the joined text. */
  lemma JoinConsFirst(x: char, p0: string, rest: seq<string>, sep: string)
    ensures Join([[x] + p0] + rest, sep) == [x] + Join([p0] + rest, sep)
  {
    assert ([[x] + p0] + rest)[1..] == rest && ([p0] + rest)[1..] == rest;
  }

  /** Joining the fields with the separator gives the original text back. */
  lemma {:induction false} SplitJoin(s: string, c: char)
    ensures Join(Split(s, c), [c]) == s
  {
    if s != [] {
      var rest := Split(s[1..], c);
      SplitJoin(s[1..], c);
      if s[0] == c {
        assert ([""] + rest)[1..] == rest;
        assert Join([""] + rest, [c]) == "" + [c] + Join(rest, [c]);
        assert s == [c] + s[1..];
      } else {
        JoinConsFirst(s[0], rest[0], rest[1..], [c]);
        assert [rest[0]] + rest[1..] == rest;
        assert s == [s[0]] + s[1..];
      }
    }
  }

  /** A prefix free of the separator becomes the start of the first field. */
  lemma {:induction false} SplitPrefix(p: string, t: string, c: char)
    requires c !in p
    ensures Split(p + t, c) == [p + Split(t, c)[0]] + Split(t, c)[1..]
  {
    if p != [] {
      SplitPrefix(p[1..], t, c);
      assert (p + t)[1..] == p[1..] + t;
      assert [p[0]] + (p[1..] + Split(t, c)[0]) == p + Split(t, c)[0];
    } else {
      var r := Split(t, c);
      assert p + t == t && p + r[0] == r[0];
      assert [r[0]] + r[1..] == r;
    }
  }

  /** Splitting the join of separator-free fields gives the fields back. */
  lemma {:induction false} JoinSplit(parts: seq<string>, c: char)
    requires |parts| >= 1
    requires forall i :: 0 <= i < |parts| ==> c !in parts[i]
    ensures Split(Join(parts, [c]), c) == parts
  {
    if |parts| == 1 {
      SplitPrefix(parts[0], "", c);
      assert parts[0] + "" == parts[0];
    } else {
      var tail := Join(parts[1..], [c]);
      JoinSplit(parts[1..], c);
      assert Join(parts, [c]) == parts[0] + ([c] + tail);
      SplitPrefix(parts[0], [c] + tail, c);
      assert ([c] + tail)[1..] == tail;
      assert Split([c] + tail, c) == [""] + parts[1..];
      assert parts[0] + "" == parts[0];
    }
  }

  // ---------------------------------------------------------------------------
  // Splitting on an ordered list of separators
  // ---------------------------------------------------------------------------

  /** `sep` matches at the start of `s`; an empty separator never matches. */
  predicate StartsWith(s: string, sep: string)
  {
    sep != [] && sep <= s
  }

  /**
   * The separator `String.Split(string[])` uses at the start of `s`: the first
   * one in array order that matches there, if any.
   */
  function SeparatorAt(s: string, seps: seq<string>): (r: Option<nat>)
    ensures r.Some? ==> r.value < |seps| && StartsWith(s, seps[r.value])
    ensures r.Some? ==> forall k :: 0 <= k < r.value ==> !StartsWith(s, seps[k])
    ensures r.None? ==> forall k :: 0 <= k < |seps| ==> !StartsWith(s, seps[k])
  {
    if seps == [] then None
    else if StartsWith(s, seps[0]) then Some(0)
    else match SeparatorAt(s, seps[1..])
      case None => None
      case Some(j) => Some(j + 1)
  }

  /**
   * `String.Split(seps, StringSplitOptions.None)`: the text is scanned from the
   * left; where a separator matches (the first in array order) it is consumed
   * and ends the current segment, otherwise one character joins the segment.
   */
  function SplitAny(s: string, seps: seq<string>): (parts: seq<string>)
    ensures |parts| >= 1
    decreases |s|
  {
    if s == [] then [""]
    else match SeparatorAt(s, seps)
      case Some(k) => [""] + SplitAny(s[|seps[k]|..], seps)
      case None =>
        var rest := SplitAny(s[1..], seps);
        [[s[0]] + rest[0]] + rest[1..]
  }

  /** The separators SplitAny consumes, in the order it meets them. */
  function Delimiters(s: string, seps: seq<string>): (ds: seq<string>)
    ensures forall i :: 0 <= i < |ds| ==> ds[i] in seps
    decreases |s|
  {
    if s == [] then []
    else match SeparatorAt(s, seps)
      case Some(k) => [seps[k]] + Delimiters(s[|seps[k]|..], seps)
      case None => Delimiters(s[1..], seps)
  }

  /** parts[0] + ds[0] + parts[1] + ds[1] + ... + parts[|ds|]. */
  function Interleave(parts: seq<string>, ds: seq<string>): string
    requires |parts| == |ds| + 1
    decreases |ds|
  {
    if ds == [] then parts[0] else parts[0] + ds[0] + Interleave(parts[1..], ds[1..])
  }

  /** One part and one separator in front. */
  lemma InterleaveCons(p: string, rest: seq<string>, sep: string, drest: seq<string>)
    requires |rest| == |drest| + 1
    ensures Interleave([p] + rest, [sep] + drest) == p + (sep + Interleave(rest, drest))
  {
    assert ([p] + rest)[1..] == rest && ([sep] + drest)[1..] == drest;
  }

  /** The interleaved text starts with the first character of the first part. */
  lemma InterleaveStart(parts: seq<string>, ds: seq<string>)
    requires |parts| == |ds| + 1 && parts[0] != []
    ensures Interleave(parts, ds) != [] && Interleave(parts, ds)[0] == parts[0][0]
  {
  }

  lemma InterleaveConsFirst(x: char, p0: string, rest: seq<string>, ds: seq<string>)
    requires |rest| == |ds|
    ensures Interleave([[x] + p0] + rest, ds) == [x] + Interleave([p0] + rest, ds)
  {
    assert ([[x] + p0] + rest)[1..] == rest && ([p0] + rest)[1..] == rest;
  }

  /** One separator and one part at the end. */
  lemma {:induction false} InterleaveSnoc(parts: seq<string>, ds: seq<string>, sep: string, q: string)
    requires |parts| == |ds| + 1
    ensures Interleave(parts + [q], ds + [sep]) == Interleave(parts, ds) + sep + q
    decreases |ds|
  {
    if ds == [] {
      assert parts + [q] == [parts[0], q] && ds + [sep] == [sep];
      assert [parts[0], q][1..] == [q] && [sep][1..] == [];
    } else {
      InterleaveSnoc(parts[1..], ds[1..], sep, q);
      assert (parts + [q])[1..] == parts[1..] + [q] && (ds + [sep])[1..] == ds[1..] + [sep];
    }
  }

  /**
   * Nothing is lost by splitting: putting each consumed separator back
   * between the segments rebuilds the text.
   */
  lemma {:induction false} SplitAnyRoundTrip(s: string, seps: seq<string>)
    ensures |SplitAny(s, seps)| == |Delimiters(s, seps)| + 1
    ensures Interleave(SplitAny(s, seps), Delimiters(s, seps)) == s
  {
    if s != [] {
      match SeparatorAt(s, seps)
      case Some(k) =>
        var t := s[|seps[k]|..];
        SplitAnyRoundTrip(t, seps);
        var parts := [""] + SplitAny(t, seps);
        var ds := [seps[k]] + Delimiters(t, seps);
        assert parts[1..] == SplitAny(t, seps) && ds[1..] == Delimiters(t, seps);
        assert s == seps[k] + t;
      case None =>
        SplitAnyRoundTrip(s[1..], seps);
        var r := SplitAny(s[1..], seps);
        InterleaveConsFirst(s[0], r[0], r[1..], Delimiters(s[1..], seps));
        assert [r[0]] + r[1..] == r;
        assert s == [s[0]] + s[1..];
    }
  }

  /** No separator matches at any position of `p` within `p + t`. */
  predicate Unbroken(p: string, t: string, seps: seq<string>)
    decreases |p|
  {
    p == [] || (SeparatorAt(p + t, seps) == None && Unbroken(p[1..], t, seps))
  }

  /** A prefix where no separator matches becomes the start of the first segment. */
  lemma {:induction false} SplitAnyUnbroken(p: string, t: string, seps: seq<string>)
    requires Unbroken(p, t, seps)
    ensures SplitAny(p + t, seps) == [p + SplitAny(t, seps)[0]] + SplitAny(t, seps)[1..]
    decreases |p|
  {
    var r := SplitAny(t, seps);
    if p == [] {
      assert p + t == t && p + r[0] == r[0];
      assert [r[0]] + r[1..] == r;
    } else {
      SplitAnyUnbroken(p[1..], t, seps);
      assert (p + t)[1..] == p[1..] + t;
      assert [p[0]] + (p[1..] + r[0]) == p + r[0];
    }
  }

  /** Such a prefix contributes no separator. */
  lemma {:induction false} DelimitersUnbroken(p: string, t: string, seps: seq<string>)
    requires Unbroken(p, t, seps)
    ensures Delimiters(p + t, seps) == Delimiters(t, seps)
    decreases |p|
  {
    if p == [] {
      assert p + t == t;
    } else {
      DelimitersUnbroken(p[1..], t, seps);
      assert (p + t)[1..] == p[1..] + t;
    }
  }

  /** A character that is by itself one of the separators occurs in no segment. */
  lemma {:induction false} SplitAnyAvoids(s: string, seps: seq<string>, c: char)
    requires [c] in seps
    ensures forall i :: 0 <= i < |SplitAny(s, seps)| ==> c !in SplitAny(s, seps)[i]
    decreases |s|
  {
    if s != [] {
      match SeparatorAt(s, seps)
      case Some(k) =>
        SplitAnyAvoids(s[|seps[k]|..], seps, c);
      case None =>
        SplitAnyAvoids(s[1..], seps, c);
        assert s[0] != c;
    }
  }

  /** Splitting on one character is splitting on the one-element separator list. */
  lemma {:induction false} SplitIsSplitAny(s: string, c: char)
    ensures Split(s, c) == SplitAny(s, [[c]])
    decreases |s|
  {
    if s != [] {
      SplitIsSplitAny(s[1..], c);
      if s[0] == c {
        assert StartsWith(s, [c]);
      } else {
        assert !StartsWith(s, [c]);
      }
    }
  }

  // ---------------------------------------------------------------------------
  // StringSplitOptions.RemoveEmptyEntries
  // ---------------------------------------------------------------------------

  /** Concatenation of all parts. */
  function Concat(parts: seq<string>): string
  {
    if parts == [] then "" else parts[0] + Concat(parts[1..])
  }

  /** Drops the empty strings and keeps the others in order. */
  function RemoveEmpty(parts: seq<string>): (r: seq<string>)
    ensures forall i :: 0 <= i < |r| ==> r[i] != ""
    ensures forall p :: p in r <==> p in parts && p != ""
  {
    if parts == [] then []
    else if parts[0] == "" then RemoveEmpty(parts[1..])
    else [parts[0]] + RemoveEmpty(parts[1..])
  }

  /** Removing empty entries loses no text and keeps its order. */
  lemma {:induction false} RemoveEmptyKeepsText(parts: seq<string>)
    ensures Concat(RemoveEmpty(parts)) == Concat(parts)
  {
    if parts != [] {
      var r := RemoveEmpty(parts[1..]);
      RemoveEmptyKeepsText(parts[1..]);
      assert Concat(parts) == parts[0] + Concat(parts[1..]);
      if parts[0] == "" {
        assert RemoveEmpty(parts) == r;
        assert "" + Concat(parts[1..]) == Concat(parts[1..]);
      } else {
        var r' := [parts[0]] + r;
        assert RemoveEmpty(parts) == r';
        assert r' != [] && r'[0] == parts[0] && r'[1..] == r;
        assert Concat(r') == parts[0] + Concat(r);
      }
    }
  }

  /** Removing empty entries from parts that are all non-empty changes nothing. */
  lemma {:induction false} RemoveEmptyOfNonEmpty(parts: seq<string>)
    requires forall i :: 0 <= i < |parts| ==> parts[i] != ""
    ensures RemoveEmpty(parts) == parts
  {
    if parts != [] {
      RemoveEmptyOfNonEmpty(parts[1..]);
      assert [parts[0]] + parts[1..] == parts;
    }
  }

  /** Removing empty entries from parts that are all empty leaves nothing. */
  lemma {:induction false} RemoveEmptyOfEmpty(parts: seq<string>)
    requires forall i :: 0 <= i < |parts| ==> parts[i] == ""
    ensures RemoveEmpty(parts) == []
  {
    if parts != [] {
      RemoveEmptyOfEmpty(parts[1..]);
    }
  }

  /** A one-entry list keeps its entry exactly when the entry is non-empty. */
  lemma RemoveEmptySingle(p: string)
    ensures RemoveEmpty([p]) == if p == "" then [] else [p]
  {
    assert [p][1..] == [];
  }

  /**
   * Removing empty entries commutes with concatenation; with `RemoveEmptySingle`
   * this fixes the order and the number of occurrences of every kept entry.
   */
  lemma {:induction false} RemoveEmptyAppend(a: seq<string>, b: seq<string>)
    ensures RemoveEmpty(a + b) == RemoveEmpty(a) + RemoveEmpty(b)
    decreases |a|
  {
    if a == [] {
      assert a + b == b;
    } else {
      RemoveEmptyAppend(a[1..], b);
      assert (a + b)[0] == a[0] && (a + b)[1..] == a[1..] + b;
    }
  }

  /** Concatenation of the parts of a sum of lists. */
  lemma {:induction false} ConcatAppend(a: seq<string>, b: seq<string>)
    ensures Concat(a + b) == Concat(a) + Concat(b)
    decreases |a|
  {
    if a == [] {
      assert a + b == b;
    } else {
      ConcatAppend(a[1..], b);
      assert (a + b)[0] == a[0] && (a + b)[1..] == a[1..] + b;
    }
  }
}
