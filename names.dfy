/**
 * File names: Python's ordering of `str` values, the order `list.sort()`
 * leaves a directory listing in, and the fixed-position marker test both
 * loaders apply to every sorted name (GreenEye.py lines 26-30 and 40-44).
 */
module Names {
  import opened Wrappers

  /** The position the loaders inspect, and the character they expect there. */
  const MarkerIndex: nat := 36
  const Marker: char := '.'

  /** `name[36]` on a name of 36 characters or fewer raises IndexError. */
  datatype NameError = IndexError

  /** Python's `a <= b` on strings: code point by code point, a proper prefix first. */
  predicate LexLe(a: string, b: string)
    ensures a <= b ==> LexLe(a, b)  // a prefix sorts first
    decreases |a|
  {
    |a| == 0 || (|b| > 0 && (a[0] < b[0] || (a[0] == b[0] && LexLe(a[1..], b[1..]))))
  }

  lemma {:induction false} LexLeTotal(a: string, b: string)
    ensures LexLe(a, b) || LexLe(b, a)
    decreases |a|
  {
    if |a| > 0 && |b| > 0 && a[0] == b[0] {
      LexLeTotal(a[1..], b[1..]);
    }
  }

  lemma {:induction false} LexLeReflexive(a: string)
    ensures LexLe(a, a)
    decreases |a|
  {
    if |a| > 0 {
      LexLeReflexive(a[1..]);
    }
  }

  lemma {:induction false} LexLeTransitive(a: string, b: string, c: string)
    requires LexLe(a, b) && LexLe(b, c)
    ensures LexLe(a, c)
    decreases |a|
  {
    if |a| > 0 && a[0] == b[0] && b[0] == c[0] {
      LexLeTransitive(a[1..], b[1..], c[1..]);
    }
  }

  lemma {:induction false} LexLeAntisymmetric(a: string, b: string)
    requires LexLe(a, b) && LexLe(b, a)
    ensures a == b
    decreases |a|
  {
    if |a| > 0 {
      LexLeAntisymmetric(a[1..], b[1..]);
      assert a == [a[0]] + a[1..] && b == [b[0]] + b[1..];
    }
  }

  ghost predicate IsSorted(s: seq<string>)
  {
    forall i, j :: 0 <= i < j < |s| ==> LexLe(s[i], s[j])
  }

  /** Places `x` in front of the first element it does not follow. */
  function Insert(s: seq<string>, x: string): (r: seq<string>)
    requires IsSorted(s)
    ensures IsSorted(r)
    ensures multiset(r) == multiset(s) + multiset{x}
  {
    if s == [] then [x]
    else if LexLe(x, s[0]) then
      assert forall j :: 0 <= j < |s| ==> LexLe(x, s[j]) by {
        forall j | 0 <= j < |s| ensures LexLe(x, s[j]) {
          if j > 0 { LexLeTransitive(x, s[0], s[j]); }
        }
      }
      [x] + s
    else
      var rest := Insert(s[1..], x);
      assert s == [s[0]] + s[1..];
      LexLeTotal(x, s[0]);
      HeadBelowInserted(s[0], s[1..], x, rest);
      [s[0]] + rest
  }

  /** A name below a tail and below `x` stays below the tail with `x` inserted. */
  lemma HeadBelowInserted(head: string, tail: seq<string>, x: string, rest: seq<string>)
    requires forall j :: 0 <= j < |tail| ==> LexLe(head, tail[j])
    requires LexLe(head, x)
    requires multiset(rest) == multiset(tail) + multiset{x}
    ensures forall k :: 0 <= k < |rest| ==> LexLe(head, rest[k])
  {
    forall k | 0 <= k < |rest| ensures LexLe(head, rest[k]) {
      var y := rest[k];
      assert y in multiset(rest);
      if y != x {
        assert y in multiset(tail);
        var j :| 0 <= j < |tail| && tail[j] == y;
      }
    }
  }

  /**
   * What `names.sort()` leaves in `names`: an insertion sort, standing for
   * whatever algorithm the library uses (SortedUnique shows the choice does
   * not matter).
   */
  function Sort(names: seq<string>): (r: seq<string>)
    ensures IsSorted(r)
    ensures multiset(r) == multiset(names)
  {
    if names == [] then []
    else
      assert names == names[..|names| - 1] + [names[|names| - 1]];
      Insert(Sort(names[..|names| - 1]), names[|names| - 1])
  }

  /** Two sorted arrangements of the same names start with the same name. */
  lemma SortedSameHead(a: seq<string>, b: seq<string>)
    requires IsSorted(a) && IsSorted(b)
    requires multiset(a) == multiset(b) && |a| > 0 && |b| > 0
    ensures a[0] == b[0]
  {
    assert a[0] in multiset(b) && b[0] in multiset(a);
    var j :| 0 <= j < |b| && b[j] == a[0];
    var i :| 0 <= i < |a| && a[i] == b[0];
    LexLeReflexive(a[0]);
    LexLeReflexive(b[0]);
    assert LexLe(a[0], a[i]);
    assert LexLe(b[0], b[j]);
    LexLeAntisymmetric(a[0], b[0]);
  }

  /** A sorted arrangement of a collection of names is unique. */
  lemma {:induction false} SortedUnique(a: seq<string>, b: seq<string>)
    requires IsSorted(a) && IsSorted(b)
    requires multiset(a) == multiset(b)
    ensures a == b
    decreases |a|
  {
    assert |a| == |multiset(a)| == |multiset(b)| == |b|;
    if |a| > 0 {
      SortedSameHead(a, b);
      assert a == [a[0]] + a[1..] && b == [b[0]] + b[1..];
      assert multiset(a[1..]) == multiset(b[1..]) by {
        assert multiset(a) == multiset{a[0]} + multiset(a[1..]);
        assert multiset(b) == multiset{b[0]} + multiset(b[1..]);
        assert multiset(a[1..]) == multiset(a) - multiset{a[0]};
        assert multiset(b[1..]) == multiset(b) - multiset{b[0]};
      }
      SortedUnique(a[1..], b[1..]);
    }
  }

  /** The result of `sort()` is the one sorted arrangement of the listing. */
  lemma SortIsTheSortedPermutation(names: seq<string>, s: seq<string>)
    requires IsSorted(s) && multiset(s) == multiset(names)
    ensures Sort(names) == s
  {
    SortedUnique(Sort(names), s);
  }

  /** Whether a name carries the marker at the fixed position. */
  predicate HasMarker(name: string)
  {
    |name| > MarkerIndex && name[MarkerIndex] == Marker
  }

  /**
   * The names a loader keeps, in order, from an already sorted listing:
   * each name is indexed at MarkerIndex, and the first one too short to
   * index aborts the whole loop.
   */
  function Select(names: seq<string>): (r: Result<seq<string>, NameError>)
    ensures r.Ok? ==> |r.value| <= |names|
    ensures r.Ok? ==> forall x :: x in r.value ==> x in names && HasMarker(x)
    decreases |names|
  {
    if names == [] then Ok([])
    else
      var prev := Select(names[..|names| - 1]);
      var last := names[|names| - 1];
      if prev.Err? then prev
      else if |last| <= MarkerIndex then Err(IndexError)
      else if last[MarkerIndex] == Marker then Ok(prev.value + [last])
      else prev
  }

  /** Once a prefix fails, so does the whole listing, with the same error. */
  lemma {:induction false} SelectErrorSticks(names: seq<string>, n: nat)
    requires n <= |names|
    requires Select(names[..n]).Err?
    ensures Select(names) == Select(names[..n])
    decreases |names| - n
  {
    if n < |names| {
      assert names[..n + 1][..n] == names[..n];
      SelectErrorSticks(names, n + 1);
    } else {
      assert names[..n] == names;
    }
  }

  /** Reference filter, without the error path: the marked names in order. */
  function Marked(names: seq<string>): seq<string>
  {
    if names == [] then []
    else (if HasMarker(names[0]) then [names[0]] else []) + Marked(names[1..])
  }

  lemma {:induction false} MarkedAppend(a: seq<string>, b: seq<string>)
    ensures Marked(a + b) == Marked(a) + Marked(b)
    decreases |a|
  {
    if a != [] {
      var head := if HasMarker(a[0]) then [a[0]] else [];
      assert (a + b)[0] == a[0] && (a + b)[1..] == a[1..] + b;
      MarkedAppend(a[1..], b);
      calc {
        Marked(a + b);
        head + Marked(a[1..] + b);
        head + (Marked(a[1..]) + Marked(b));
        (head + Marked(a[1..])) + Marked(b);
        Marked(a) + Marked(b);
      }
    } else {
      assert a + b == b;
    }
  }

  /** Selection succeeds exactly when every name is long enough to index. */
  lemma {:induction false} SelectOkIff(names: seq<string>)
    ensures Select(names).Ok? <==> forall i :: 0 <= i < |names| ==> |names[i]| > MarkerIndex
    decreases |names|
  {
    if names != [] {
      var init := names[..|names| - 1];
      SelectOkIff(init);
      assert forall i :: 0 <= i < |init| ==> init[i] == names[i];
    }
  }

  /** On success the kept names are exactly the marked names, in listing order. */
  lemma {:induction false} SelectIsMarked(names: seq<string>)
    requires Select(names).Ok?
    ensures Select(names).value == Marked(names)
    decreases |names|
  {
    if names != [] {
      var init := names[..|names| - 1];
      var last := names[|names| - 1];
      SelectIsMarked(init);
      assert names == init + [last];
      MarkedAppend(init, [last]);
      assert Marked([last]) == (if HasMarker(last) then [last] else []) + Marked([]);
    }
  }

  /**
   * The filter loop stops at position k: the name there is too short to
   * index, every earlier one is long enough, and the loop got through them.
   */
  ghost predicate StopsAt(names: seq<string>, k: nat)
  {
    k < |names| && |names[k]| <= MarkerIndex
    && (forall i :: 0 <= i < k ==> |names[i]| > MarkerIndex)
    && Select(names[..k]).Ok? && Select(names[..k + 1]).Err?
  }

  /** On failure there is a first name, in listing order, too short to index, and the loop stops there. */
  lemma {:induction false} SelectFirstShort(names: seq<string>)
    requires Select(names).Err?
    ensures exists k: nat :: StopsAt(names, k)
    decreases |names|
  {
    var init := names[..|names| - 1];
    if Select(init).Err? {
      SelectFirstShort(init);
      var k: nat :| StopsAt(init, k);
      assert names[..k] == init[..k] && names[..k + 1] == init[..k + 1];
      assert forall i :: 0 <= i <= k ==> names[i] == init[i];
      assert StopsAt(names, k);
    } else {
      SelectOkIff(init);
      var k := |names| - 1;
      assert forall i :: 0 <= i < k ==> init[i] == names[i];
      assert names[..k] == init && names[..k + 1] == names;
      assert StopsAt(names, k);
    }
  }

  /** The marked names are those of the listing with the marker, kept in order. */
  lemma {:induction false} MarkedMembers(names: seq<string>)
    ensures forall x :: x in Marked(names) <==> x in names && HasMarker(x)
    ensures IsSorted(names) ==> IsSorted(Marked(names))
    decreases |names|
  {
    if names != [] {
      MarkedMembers(names[1..]);
      assert names == [names[0]] + names[1..];
      if IsSorted(names) {
        var m := Marked(names);
        forall i, j | 0 <= i < j < |m| ensures LexLe(m[i], m[j]) {
          if HasMarker(names[0]) && i == 0 {
            assert m[j] in Marked(names[1..]);
            var k :| 0 <= k < |names[1..]| && names[1..][k] == m[j];
            assert names[k + 1] == m[j];
          }
        }
      }
    }
  }
}

/** The duplicate-file example: a name with a disambiguator before the extension is dropped. */
module NamesExample {
  import opened Wrappers
  import opened Names

  /** A shared stem does not change the order of two names. */
  lemma {:induction false} LexLeSharedStem(stem: string, x: string, y: string)
    requires LexLe(x, y)
    ensures LexLe(stem + x, stem + y)
    decreases |stem|
  {
    if stem != [] {
      assert (stem + x)[0] == (stem + y)[0];
      assert (stem + x)[1..] == stem[1..] + x && (stem + y)[1..] == stem[1..] + y;
      LexLeSharedStem(stem[1..], x, y);
    } else {
      assert stem + x == x && stem + y == y;
    }
  }

  lemma CopyVariantDropped()
    ensures var stem := seq(36, _ => 'a');
            Select(Sort([stem + ".json", stem + "(1).json"])) == Ok([stem + ".json"])
  {
    var stem := seq(36, _ => 'a');
    var plain: string, copy: string := stem + ".json", stem + "(1).json";
    assert LexLe("(1).json", ".json");
    LexLeSharedStem(stem, "(1).json", ".json");
    assert IsSorted([copy, plain]);
    assert multiset([copy, plain]) == multiset([plain, copy]) by { }
    SortIsTheSortedPermutation([plain, copy], [copy, plain]);
    assert copy[36] == '(' && plain[36] == '.';
    assert [copy][..0] == [];
    assert Select([copy]) == Ok([]);
    assert [copy, plain][..1] == [copy];
    assert |plain| == 41 && [copy, plain][1] == plain;
    assert [] + [plain] == [plain];
    assert Select([copy, plain]) == Ok([plain]);
  }
}
