/** The bookkeeping of requested stream destinations: the per-stream lists
    of "ip:port" strings, the erase operations applied to them, the order in
    which std::map visits its keys, and toString(list). */
module Destinations {
  import opened Common

  /** The per-stream table: stream name to the destinations requested on it. */
  type Table = map<string, seq<string>>

  /** `table[stream]` as std::map::operator[] reads it: an absent stream has
      an empty list. */
  function Tracked(table: Table, stream: string): seq<string>
  {
    if stream in table then table[stream] else []
  }

  /** Index of the first occurrence of d, |l| when there is none (std::find). */
  function FirstIndex(l: seq<string>, d: string): (k: nat)
    ensures k <= |l|
    ensures k < |l| ==> l[k] == d
    ensures forall j :: 0 <= j < k ==> l[j] != d
  {
    if l == [] then 0
    else if l[0] == d then 0
    else 1 + FirstIndex(l[1..], d)
  }

  /** find followed by erase: the first occurrence of d leaves the list. */
  function RemoveFirst(l: seq<string>, d: string): seq<string>
  {
    var k := FirstIndex(l, d);
    if k < |l| then l[..k] + l[k + 1..] else l
  }

  /** Removing d takes exactly one copy of d out of the list when there is
      one, and leaves the list alone otherwise. */
  lemma RemoveFirstCount(l: seq<string>, d: string)
    ensures d in l ==> multiset(RemoveFirst(l, d)) == multiset(l) - multiset{d}
    ensures d !in l ==> RemoveFirst(l, d) == l
    ensures d in l ==> |RemoveFirst(l, d)| == |l| - 1
  {
    var k := FirstIndex(l, d);
    if k < |l| {
      assert l == l[..k] + [l[k]] + l[k + 1..];
      assert multiset(l) == multiset(l[..k]) + multiset{d} + multiset(l[k + 1..]);
    } else {
      assert d !in l;
    }
  }

  /** Every other destination keeps its number of copies. */
  lemma RemoveFirstKeepsOthers(l: seq<string>, d: string, x: string)
    requires d != x
    ensures Count(x, RemoveFirst(l, d)) == Count(x, l)
  {
    var k := FirstIndex(l, d);
    if k < |l| {
      assert l == l[..k] + [d] + l[k + 1..];
      CountAppend(x, l[..k], [d]);
      CountAppend(x, l[..k] + [d], l[k + 1..]);
      CountAppend(x, l[..k], l[k + 1..]);
    }
  }

  /** The erase loop of deleteDestinationsFromStream: one find-and-erase per
      given destination, in the given order. */
  function RemoveEach(l: seq<string>, ds: seq<string>): seq<string>
    decreases |ds|
  {
    if ds == [] then l else RemoveEach(RemoveFirst(l, ds[0]), ds[1..])
  }

  /** Erasing a list's own entries from it leaves it empty: the bulk delete
      of a stream's whole tracked list forgets every destination. */
  lemma {:induction false} RemoveEachSelf(l: seq<string>)
    ensures RemoveEach(l, l) == []
  {
    if l != [] {
      assert FirstIndex(l, l[0]) == 0;
      assert RemoveFirst(l, l[0]) == l[1..];
      RemoveEachSelf(l[1..]);
    }
  }

  /** Erasing destinations that are all tracked takes exactly those out. */
  lemma {:induction false} RemoveEachCount(l: seq<string>, ds: seq<string>)
    requires multiset(ds) <= multiset(l)
    ensures multiset(RemoveEach(l, ds)) == multiset(l) - multiset(ds)
    decreases |ds|
  {
    if ds != [] {
      var d := ds[0];
      assert ds == [d] + ds[1..];
      assert d in multiset(l);
      RemoveFirstCount(l, d);
      assert multiset(ds[1..]) <= multiset(RemoveFirst(l, d));
      RemoveEachCount(RemoveFirst(l, d), ds[1..]);
    }
  }

  /** Adding a destination and then removing it restores the list's contents. */
  lemma AppendThenRemove(l: seq<string>, d: string)
    ensures multiset(RemoveFirst(l + [d], d)) == multiset(l)
  {
    assert d in l + [d];
    RemoveFirstCount(l + [d], d);
  }

  // ---------------------------------------------------------------------
  // std::map key order

  /** std::string's operator<: lexicographic by character code, a proper
      prefix first. */
  predicate StrLess(a: string, b: string)
    decreases |a|
  {
    if a == [] then b != []
    else if b == [] then false
    else if a[0] != b[0] then a[0] < b[0]
    else StrLess(a[1..], b[1..])
  }

  lemma {:induction false} StrLessIrreflexive(a: string)
    ensures !StrLess(a, a)
  {
    if a != [] {
      StrLessIrreflexive(a[1..]);
    }
  }

  lemma {:induction false} StrLessTransitive(a: string, b: string, c: string)
    requires StrLess(a, b) && StrLess(b, c)
    ensures StrLess(a, c)
    decreases |a|
  {
    if a != [] && b != [] && c != [] && a[0] == b[0] && b[0] == c[0] {
      StrLessTransitive(a[1..], b[1..], c[1..]);
    }
  }

  lemma {:induction false} StrLessTotal(a: string, b: string)
    requires a != b
    ensures StrLess(a, b) || StrLess(b, a)
    decreases |a|
  {
    if a != [] && b != [] && a[0] == b[0] {
      assert a == [a[0]] + a[1..] && b == [b[0]] + b[1..];
      StrLessTotal(a[1..], b[1..]);
    }
  }

  /** m is the least element of s. */
  predicate IsLeast(m: string, s: set<string>)
  {
    m in s && forall x :: x in s && x != m ==> StrLess(m, x)
  }

  /** Every non-empty finite set of strings has a least element. */
  lemma {:induction false} LeastExists(s: set<string>)
    requires s != {}
    ensures exists m :: IsLeast(m, s)
    decreases |s|
  {
    var y :| y in s;
    if s == {y} {
      assert IsLeast(y, s);
    } else {
      LeastExists(s - {y});
      var m :| IsLeast(m, s - {y});
      LeastOfOneMore(m, y, s);
    }
  }

  /** Adding y to a set whose least element is m: the least is m or y. */
  lemma LeastOfOneMore(m: string, y: string, s: set<string>)
    requires y in s && IsLeast(m, s - {y})
    ensures IsLeast(m, s) || IsLeast(y, s)
  {
    StrLessTotal(m, y);
    if !StrLess(m, y) {
      forall x | x in s && x != y
        ensures StrLess(y, x)
      {
        if x != m {
          StrLessTransitive(y, m, x);
        }
      }
    }
  }

  /** A set has at most one least element. */
  lemma LeastUnique(a: string, b: string, s: set<string>)
    requires IsLeast(a, s) && IsLeast(b, s)
    ensures a == b
  {
    if a != b {
      StrLessTransitive(a, b, a);
      StrLessIrreflexive(a);
    }
  }

  predicate Ascending(ks: seq<string>)
  {
    forall i, j :: 0 <= i < j < |ks| ==> StrLess(ks[i], ks[j])
  }

  /** In an ascending sequence no key occurs before its own position. */
  lemma AscendingFresh(ks: seq<string>, i: nat)
    requires Ascending(ks) && i < |ks|
    ensures ks[i] !in ks[..i]
  {
    forall j | 0 <= j < i ensures ks[j] != ks[i] {
      StrLessIrreflexive(ks[i]);
    }
  }

  /** The keys of a set in ascending order: the least one, then the rest. */
  ghost function SortedKeys(keys: set<string>): seq<string>
    decreases |keys|
  {
    if keys == {} then []
    else
      LeastExists(keys);
      var m :| IsLeast(m, keys);
      [m] + SortedKeys(keys - {m})
  }

  /** The first of the sorted keys is a least key, and the rest are the
      sorted keys without it. */
  lemma SortedKeysFirst(keys: set<string>, m: string)
    requires IsLeast(m, keys)
    ensures SortedKeys(keys) == [m] + SortedKeys(keys - {m})
  {
    LeastExists(keys);
    var m' :| IsLeast(m', keys) && SortedKeys(keys) == [m'] + SortedKeys(keys - {m'});
    LeastUnique(m, m', keys);
  }

  /** The sorted keys are ascending and hold exactly the set's keys. */
  lemma {:induction false} SortedKeysSpec(keys: set<string>)
    ensures Ascending(SortedKeys(keys))
    ensures forall k :: k in keys <==> k in SortedKeys(keys)
    ensures |SortedKeys(keys)| == |keys|
    decreases |keys|
  {
    if keys != {} {
      LeastExists(keys);
      var m :| IsLeast(m, keys);
      SortedKeysFirst(keys, m);
      var t := SortedKeys(keys - {m});
      SortedKeysSpec(keys - {m});
      assert forall j :: 0 <= j < |t| ==> t[j] in keys - {m};
      assert forall j :: 0 < j < |[m] + t| ==> ([m] + t)[j] == t[j - 1];
    }
  }

  /** The keys of a std::map in the order a range-for visits them. */
  method AscendingKeys(keys: set<string>) returns (ks: seq<string>)
    ensures Ascending(ks)
    ensures forall k :: k in keys <==> k in ks
    ensures |ks| == |keys|
    ensures ks == SortedKeys(keys)
  {
    ks := [];
    var rest := keys;
    while rest != {}
      invariant ks + SortedKeys(rest) == SortedKeys(keys)
      decreases |rest|
    {
      LeastExists(rest);
      var m :| IsLeast(m, rest);
      SortedKeysFirst(rest, m);
      AppendAssoc(ks, [m], SortedKeys(rest - {m}));
      ks := ks + [m];
      rest := rest - {m};
    }
    assert SortedKeys(rest) == [];
    assert ks + SortedKeys(rest) == ks;
    SortedKeysSpec(keys);
  }

  // ---------------------------------------------------------------------
  // toString(list)

  /** toString(list): the entries between brackets, separated by ", ". */
  function FormatList(l: seq<string>): string
  {
    "[" + Join(", ", l) + "]"
  }

  function TotalLength(l: seq<string>): nat
  {
    if l == [] then 0 else |l[0]| + TotalLength(l[1..])
  }

  /** Where the k-th entry starts in the joined text: after the k entries
      before it and one separator after each of them. */
  function Offset(sep: string, l: seq<string>, k: nat): nat
    requires k <= |l|
  {
    TotalLength(l[..k]) + |sep| * k
  }

  /** Moving past the first entry and its separator. */
  lemma OffsetStep(sep: string, l: seq<string>, k: nat)
    requires k < |l|
    ensures Offset(sep, l, k + 1) == |l[0]| + |sep| + Offset(sep, l[1..], k)
  {
    assert l[..k + 1][1..] == l[1..][..k];
  }

  /** A slice of a concatenation that lies in its second part. */
  lemma SliceShift(a: string, b: string, i: nat, j: nat)
    requires i <= j <= |b|
    ensures (a + b)[|a| + i..|a| + j] == b[i..j]
  {
  }

  lemma JoinCons(sep: string, l: seq<string>)
    requires |l| > 1
    ensures Join(sep, l) == l[0] + sep + Join(sep, l[1..])
  {
  }

  lemma {:induction false} JoinLength(sep: string, l: seq<string>)
    requires l != []
    ensures |Join(sep, l)| == TotalLength(l) + |sep| * (|l| - 1)
  {
    if |l| > 1 {
      JoinLength(sep, l[1..]);
    }
  }

  /** Entry k of the list sits at Offset(k) of the joined text. */
  lemma {:induction false} JoinEntryAt(sep: string, l: seq<string>, k: nat)
    requires k < |l|
    ensures Offset(sep, l, k) + |l[k]| <= |Join(sep, l)|
    ensures Join(sep, l)[Offset(sep, l, k)..Offset(sep, l, k) + |l[k]|] == l[k]
  {
    if |l| == 1 {
      assert l[..0] == [];
    } else {
      JoinCons(sep, l);
      if k == 0 {
        assert l[..0] == [];
      } else {
        var t := l[1..];
        JoinEntryAt(sep, t, k - 1);
        OffsetStep(sep, l, k - 1);
        assert l[k] == t[k - 1];
        var o := Offset(sep, t, k - 1);
        SliceShift(l[0] + sep, Join(sep, t), o, o + |t[k - 1]|);
      }
    }
  }

  /** Between entry k and entry k + 1 the joined text holds the separator. */
  lemma {:induction false} JoinSepAt(sep: string, l: seq<string>, k: nat)
    requires k + 1 < |l|
    ensures Offset(sep, l, k) + |l[k]| + |sep| == Offset(sep, l, k + 1) <= |Join(sep, l)|
    ensures Join(sep, l)[Offset(sep, l, k) + |l[k]|..Offset(sep, l, k + 1)] == sep
  {
    var t := l[1..];
    JoinCons(sep, l);
    JoinEntryAt(sep, l, k + 1);
    OffsetStep(sep, l, k);
    assert l[k + 1] == t[k];
    if k == 0 {
      assert l[..0] == [] && t[..0] == [];
      assert Offset(sep, l, 1) == |l[0]| + |sep|;
    } else {
      JoinSepAt(sep, t, k - 1);
      OffsetStep(sep, l, k - 1);
      assert l[k] == t[k - 1];
      SliceShift(l[0] + sep, Join(sep, t), Offset(sep, t, k - 1) + |t[k - 1]|, Offset(sep, t, k));
    }
  }

  /** The joined text is the entries in order with the separator between each
      two neighbours and nowhere else: entry k sits at Offset(k), and the
      text from its end to the start of entry k + 1 is the separator. */
  lemma JoinLayout(sep: string, l: seq<string>)
    requires l != []
    ensures |Join(sep, l)| == TotalLength(l) + |sep| * (|l| - 1)
    ensures forall k :: 0 <= k < |l| ==>
      Offset(sep, l, k) + |l[k]| <= |Join(sep, l)| &&
      Join(sep, l)[Offset(sep, l, k)..Offset(sep, l, k) + |l[k]|] == l[k]
    ensures forall k :: 0 <= k < |l| - 1 ==>
      Offset(sep, l, k) + |l[k]| + |sep| == Offset(sep, l, k + 1) &&
      Join(sep, l)[Offset(sep, l, k) + |l[k]|..Offset(sep, l, k + 1)] == sep
  {
    JoinLength(sep, l);
    forall k | 0 <= k < |l|
      ensures Offset(sep, l, k) + |l[k]| <= |Join(sep, l)|
      ensures Join(sep, l)[Offset(sep, l, k)..Offset(sep, l, k) + |l[k]|] == l[k]
    {
      JoinEntryAt(sep, l, k);
    }
    forall k | 0 <= k < |l| - 1
      ensures Offset(sep, l, k) + |l[k]| + |sep| == Offset(sep, l, k + 1)
      ensures Join(sep, l)[Offset(sep, l, k) + |l[k]|..Offset(sep, l, k + 1)] == sep
    {
      JoinSepAt(sep, l, k);
    }
  }

  /** A slice of the bracketed text is the same slice of the text inside. */
  lemma BracketedSlice(j: string, i: nat, n: nat)
    requires i <= n <= |j|
    ensures ("[" + j + "]")[1 + i..1 + n] == j[i..n]
  {
    assert "[" + j + "]" == "[" + (j + "]");
    SliceShift("[", j + "]", i, n);
  }

  /** Entry k of the list sits at 1 + Offset(k) of toString(list). */
  lemma FormatListEntryAt(l: seq<string>, k: nat)
    requires k < |l|
    ensures 1 + Offset(", ", l, k) + |l[k]| < |FormatList(l)|
    ensures FormatList(l)[1 + Offset(", ", l, k)..1 + Offset(", ", l, k) + |l[k]|] == l[k]
  {
    JoinEntryAt(", ", l, k);
    BracketedSlice(Join(", ", l), Offset(", ", l, k), Offset(", ", l, k) + |l[k]|);
  }

  /** Between entries k and k + 1, toString(list) holds ", ". */
  lemma FormatListSepAt(l: seq<string>, k: nat)
    requires k + 1 < |l|
    ensures Offset(", ", l, k) + |l[k]| + 2 == Offset(", ", l, k + 1) < |FormatList(l)|
    ensures FormatList(l)[1 + Offset(", ", l, k) + |l[k]|..1 + Offset(", ", l, k + 1)] == ", "
  {
    JoinSepAt(", ", l, k);
    BracketedSlice(Join(", ", l), Offset(", ", l, k) + |l[k]|, Offset(", ", l, k + 1));
  }

  lemma FormatListShape(l: seq<string>)
    ensures l == [] ==> FormatList(l) == "[]"
    ensures l != [] ==> |FormatList(l)| == 2 + TotalLength(l) + 2 * (|l| - 1)
    ensures FormatList(l)[0] == '[' && FormatList(l)[|FormatList(l)| - 1] == ']'
  {
    if l != [] {
      JoinLength(", ", l);
    }
  }

  lemma FormatListEntries(l: seq<string>)
    ensures forall k :: 0 <= k < |l| ==>
      1 + Offset(", ", l, k) + |l[k]| < |FormatList(l)| &&
      FormatList(l)[1 + Offset(", ", l, k)..1 + Offset(", ", l, k) + |l[k]|] == l[k]
  {
    forall k | 0 <= k < |l|
      ensures 1 + Offset(", ", l, k) + |l[k]| < |FormatList(l)|
      ensures FormatList(l)[1 + Offset(", ", l, k)..1 + Offset(", ", l, k) + |l[k]|] == l[k]
    {
      FormatListEntryAt(l, k);
    }
  }

  lemma FormatListSeparators(l: seq<string>)
    ensures forall k {:trigger l[k]} :: 0 <= k < |l| - 1 ==>
      Offset(", ", l, k) + |l[k]| + 2 == Offset(", ", l, k + 1) < |FormatList(l)| &&
      FormatList(l)[1 + Offset(", ", l, k) + |l[k]|..1 + Offset(", ", l, k + 1)] == ", "
  {
    forall k {:trigger l[k]} | 0 <= k < |l| - 1
      ensures Offset(", ", l, k) + |l[k]| + 2 == Offset(", ", l, k + 1) < |FormatList(l)|
      ensures FormatList(l)[1 + Offset(", ", l, k) + |l[k]|..1 + Offset(", ", l, k + 1)] == ", "
    {
      FormatListSepAt(l, k);
    }
  }

  /** toString(list) is "[]" for an empty list; otherwise it opens with '[',
      closes with ']', and between them holds the entries in order with ", "
      between each two neighbours (entry k starts at 1 + Offset(", ", l, k)). */
  lemma FormatListLayout(l: seq<string>)
    ensures l == [] ==> FormatList(l) == "[]"
    ensures l != [] ==> |FormatList(l)| == 2 + TotalLength(l) + 2 * (|l| - 1)
    ensures FormatList(l)[0] == '[' && FormatList(l)[|FormatList(l)| - 1] == ']'
    ensures forall k :: 0 <= k < |l| ==>
      1 + Offset(", ", l, k) + |l[k]| < |FormatList(l)| &&
      FormatList(l)[1 + Offset(", ", l, k)..1 + Offset(", ", l, k) + |l[k]|] == l[k]
    ensures forall k {:trigger l[k]} :: 0 <= k < |l| - 1 ==>
      Offset(", ", l, k) + |l[k]| + 2 == Offset(", ", l, k + 1) < |FormatList(l)| &&
      FormatList(l)[1 + Offset(", ", l, k) + |l[k]|..1 + Offset(", ", l, k + 1)] == ", "
  {
    FormatListShape(l);
    FormatListEntries(l);
    FormatListSeparators(l);
  }

  // ---------------------------------------------------------------------
  // The erase loop of cleanUpRequestedStreams as the source writes it

  /** cleanUpRequestedStreams hands deleteDestinationsFromStream a reference
      to the tracked list itself, so its erase loop walks the list it erases
      from. `pos` is the node the range-for stands on; erasing that node
      invalidates the loop's iterator, which is undefined behaviour (None). */
  function AliasedRemoveEach(l: seq<string>, pos: nat): Option<seq<string>>
    decreases |l| - pos
  {
    if pos >= |l| then Some(l)
    else
      var k := FirstIndex(l, l[pos]);
      if k == pos then None
      else AliasedRemoveEach(l[..k] + l[k + 1..], pos)
  }

  /** The aliased loop erases the very node it stands on at its first step,
      for every non-empty list. */
  lemma AliasedRemoveEachUndefined(l: seq<string>)
    requires l != []
    ensures AliasedRemoveEach(l, 0) == None
  {
    assert FirstIndex(l, l[0]) == 0;
  }
}
