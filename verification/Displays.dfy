/** The reordering of displays in libs/scrap/src/common/dxgi.rs. */
module Displays {
  import opened Basics

  /** A display: the name it reports and an identity that tells equal names apart. */
  datatype Display = Display(name: string, id: nat)

  function Names(ds: seq<Display>): (ns: seq<string>)
    ensures |ns| == |ds| && forall k :: 0 <= k < |ds| ==> ns[k] == ds[k].name
  {
    if ds == [] then [] else [ds[0].name] + Names(ds[1..])
  }

  /** The first display with this name. */
  function Position(ds: seq<Display>, name: string): (r: Option<nat>)
    ensures r.Some? ==> r.value < |ds| && ds[r.value].name == name
    ensures r.None? ==> forall k :: 0 <= k < |ds| ==> ds[k].name != name
  {
    if ds == [] then None
    else if ds[0].name == name then Some(0)
    else match Position(ds[1..], name)
         case None => None
         case Some(p) => Some(p + 1)
  }

  function Removed(ds: seq<Display>, pos: nat): seq<Display>
    requires pos < |ds|
  {
    ds[..pos] + ds[pos + 1..]
  }

  /** Where the next name is taken from; zero in the branch marked unreachable. */
  function Pick(ds: seq<Display>, name: string): (pos: nat)
    requires ds != []
    ensures pos < |ds|
  {
    match Position(ds, name) case Some(p) => p case None => 0
  }

  function Reordered(names: seq<string>, ds: seq<Display>): (r: seq<Display>)
    requires |names| == |ds|
    ensures |r| == |names|
    decreases |names|
  {
    if names == [] then []
    else
      var pos := Pick(ds, names[0]);
      [ds[pos]] + Reordered(names[1..], Removed(ds, pos))
  }

  /** The branch marked unreachable is never taken. */
  predicate NoMiss(names: seq<string>, ds: seq<Display>)
    requires |names| == |ds|
    decreases |names|
  {
    names == [] || (Position(ds, names[0]).Some? && NoMiss(names[1..], Removed(ds, Pick(ds, names[0]))))
  }

  function Chosen(gdi: seq<Display>, dxgi: seq<Display>): seq<Display> {
    if dxgi == [] then gdi
    else if |dxgi| != |gdi| then dxgi
    else if exists n <- Names(gdi) :: n !in Names(dxgi) then dxgi
    else Reordered(Names(gdi), dxgi)
  }

  // ----- a permutation -----

  lemma {:induction false} RemovedMultiset(ds: seq<Display>, pos: nat)
    requires pos < |ds|
    ensures multiset(ds) == multiset{ds[pos]} + multiset(Removed(ds, pos))
  {
    assert ds == ds[..pos] + [ds[pos]] + ds[pos + 1..];
  }

  lemma {:induction false} NamesAppend(a: seq<Display>, b: seq<Display>)
    ensures Names(a + b) == Names(a) + Names(b)
  {
  }

  lemma {:induction false} RemovedNames(ds: seq<Display>, pos: nat)
    requires pos < |ds|
    ensures multiset(Names(ds)) == multiset{ds[pos].name} + multiset(Names(Removed(ds, pos)))
  {
    var a, b := ds[..pos], ds[pos + 1..];
    assert ds == a + ([ds[pos]] + b);
    NamesAppend(a, [ds[pos]] + b);
    NamesAppend([ds[pos]], b);
    NamesAppend(a, b);
    assert Names(ds) == Names(a) + ([ds[pos].name] + Names(b));
  }

  /** The result is a permutation of the dxgi displays, whatever the names are. */
  lemma {:induction false} ReorderedIsPermutation(names: seq<string>, ds: seq<Display>)
    requires |names| == |ds|
    ensures multiset(Reordered(names, ds)) == multiset(ds)
    decreases |names|
  {
    hide Pick;
    if names != [] {
      var pos := Pick(ds, names[0]);
      ReorderedIsPermutation(names[1..], Removed(ds, pos));
      RemovedMultiset(ds, pos);
    } else {
      assert ds == [];
    }
  }

  lemma {:induction false} NamesPermuted(names: seq<string>, ds: seq<Display>)
    requires |names| == |ds|
    ensures multiset(Names(Reordered(names, ds))) == multiset(Names(ds))
    decreases |names|
  {
    hide Pick, Names;
    if names != [] {
      var pos := Pick(ds, names[0]);
      var rest := Reordered(names[1..], Removed(ds, pos));
      NamesPermuted(names[1..], Removed(ds, pos));
      RemovedNames(ds, pos);
      NamesAppend([ds[pos]], rest);
      assert Names([ds[pos]]) == [ds[pos].name];
    } else {
      assert ds == [];
    }
  }

  // ----- the order -----

  /** The result carries the gdi names in order exactly when the unreachable branch is not taken. */
  lemma {:induction false} OrderedIffNoMiss(names: seq<string>, ds: seq<Display>)
    requires |names| == |ds|
    ensures Names(Reordered(names, ds)) == names <==> NoMiss(names, ds)
    decreases |names|
  {
    if names != [] {
      var pos := Pick(ds, names[0]);
      var rest := Reordered(names[1..], Removed(ds, pos));
      OrderedIffNoMiss(names[1..], Removed(ds, pos));
      NamesAppend([ds[pos]], rest);
      assert Names([ds[pos]] + rest) == [ds[pos].name] + Names(rest);
      assert names == [names[0]] + names[1..];
      if Names(Reordered(names, ds)) == names {
        assert ([ds[pos].name] + Names(rest))[1..] == Names(rest);
        assert ds[pos].name == names[0];
      }
    }
  }

  lemma {:induction false} PickedName(names: seq<string>, ds: seq<Display>)
    requires |names| == |ds| && names != []
    requires names[0] in Names(ds)
    ensures Position(ds, names[0]).Some?
    ensures ds[Pick(ds, names[0])].name == names[0]
  {
    var k :| 0 <= k < |ds| && Names(ds)[k] == names[0];
    assert ds[k].name == names[0];
  }

  lemma {:induction false} FirstNameCounted(names: seq<string>)
    requires names != []
    ensures multiset(names) == multiset{names[0]} + multiset(names[1..])
    ensures multiset(names)[names[0]] > 0
  {
    assert names == [names[0]] + names[1..];
  }

  lemma {:induction false} Cancel(name: string, a: multiset<string>, b: multiset<string>)
    requires multiset{name} + a == multiset{name} + b
    ensures a == b
  {
    assert a == (multiset{name} + a) - multiset{name};
  }

  lemma {:induction false} NoMissMatchesNames(names: seq<string>, ds: seq<Display>)
    requires |names| == |ds| && NoMiss(names, ds)
    ensures multiset(names) == multiset(Names(ds))
  {
    OrderedIffNoMiss(names, ds);
    NamesPermuted(names, ds);
  }

  lemma {:induction false} SameNamesNeverMiss(names: seq<string>, ds: seq<Display>)
    requires |names| == |ds| && multiset(names) == multiset(Names(ds))
    ensures NoMiss(names, ds)
    decreases |names|
  {
    hide Names, Reordered, Position;
    if names != [] {
      var pos := Pick(ds, names[0]);
      FirstNameCounted(names);
      assert names[0] in multiset(Names(ds));
      PickedName(names, ds);
      RemovedNames(ds, pos);
      Cancel(names[0], multiset(names[1..]), multiset(Names(Removed(ds, pos))));
      SameNamesNeverMiss(names[1..], Removed(ds, pos));
    }
  }

  /** The branch is never taken exactly when both lists carry the same names equally often. */
  lemma {:induction false} NoMissIffSameNames(names: seq<string>, ds: seq<Display>)
    requires |names| == |ds|
    ensures NoMiss(names, ds) <==> multiset(names) == multiset(Names(ds))
  {
    hide *;
    if NoMiss(names, ds) {
      NoMissMatchesNames(names, ds);
    }
    if multiset(names) == multiset(Names(ds)) {
      SameNamesNeverMiss(names, ds);
    }
  }

  predicate Distinct(names: seq<string>) {
    forall a, b :: 0 <= a < b < |names| ==> names[a] != names[b]
  }

  /** Pairwise distinct names that all occur in a list of the same length are its names. */
  lemma {:induction false} DistinctNamesMatch(names: seq<string>, ds: seq<Display>)
    requires |names| == |ds|
    requires Distinct(names)
    requires forall n <- names :: n in Names(ds)
    ensures multiset(names) == multiset(Names(ds))
    decreases |names|
  {
    hide Names, Position;
    if names != [] {
      assert names[0] in Names(ds);
      PickedName(names, ds);
      var k := Pick(ds, names[0]);
      var rest := Removed(ds, k);
      RemovedNames(ds, k);
      FirstNameCounted(names);
      forall n | n in names[1..]
        ensures n in Names(rest)
      {
        var i :| 0 <= i < |names[1..]| && names[1..][i] == n;
        assert names[i + 1] == n && n != names[0];
        assert n in names;
        assert n in Names(ds);
        assert n in multiset(Names(ds));
        assert n in multiset(Names(rest));
      }
      DistinctNamesMatch(names[1..], rest);
    } else {
      assert ds == [];
      assert |Names(ds)| == 0;
      assert Names(ds) == names;
    }
  }

  /**
   In the reordering path the k-th result carries the k-th gdi name exactly when both lists carry the same
   names equally often, which pairwise distinct gdi names guarantee.
   */
  lemma {:induction false} ReorderFollowsGdi(gdi: seq<Display>, dxgi: seq<Display>)
    requires dxgi != [] && |gdi| == |dxgi| && forall n <- Names(gdi) :: n in Names(dxgi)
    ensures multiset(Chosen(gdi, dxgi)) == multiset(dxgi)
    ensures Names(Chosen(gdi, dxgi)) == Names(gdi) <==> multiset(Names(gdi)) == multiset(Names(dxgi))
    ensures NoMiss(Names(gdi), dxgi) <==> multiset(Names(gdi)) == multiset(Names(dxgi))
    ensures Distinct(Names(gdi)) ==> multiset(Names(gdi)) == multiset(Names(dxgi))
  {
    hide Names, Reordered, NoMiss, Position, Distinct;
    var names := Names(gdi);
    ReorderedIsPermutation(names, dxgi);
    OrderedIffNoMiss(names, dxgi);
    NoMissIffSameNames(names, dxgi);
    if Distinct(names) {
      DistinctNamesMatch(names, dxgi);
    }
  }

  /**
   Which list is returned: the gdi displays without a dxgi one, and otherwise the dxgi displays, as they came if the
   lists differ in length or a gdi name is missing among them.
   */
  lemma {:induction false} ChosenList(gdi: seq<Display>, dxgi: seq<Display>)
    ensures dxgi == [] ==> Chosen(gdi, dxgi) == gdi
    ensures dxgi != [] ==> multiset(Chosen(gdi, dxgi)) == multiset(dxgi)
    ensures dxgi != [] && (|dxgi| != |gdi| || exists g <- gdi :: forall d <- dxgi :: d.name != g.name) ==>
              Chosen(gdi, dxgi) == dxgi
  {
    hide Reordered;
    if dxgi != [] && |dxgi| == |gdi| {
      ReorderedIsPermutation(Names(gdi), dxgi);
      if g :| g in gdi && forall d <- dxgi :: d.name != g.name {
        var i :| 0 <= i < |gdi| && gdi[i] == g;
        assert Names(gdi)[i] in Names(gdi);
      }
    }
  }

  function WithName(ds: seq<Display>, name: string): seq<Display> {
    if ds == [] then [] else (if ds[0].name == name then [ds[0]] else []) + WithName(ds[1..], name)
  }

  lemma {:induction false} WithNameRemoved(ds: seq<Display>, first: string, name: string)
    requires Position(ds, first).Some?
    ensures var pos := Pick(ds, first);
            WithName(ds, name) == (if first == name then [ds[pos]] else []) + WithName(Removed(ds, pos), name)
    decreases |ds|
  {
    var pos := Pick(ds, first);
    if pos == 0 {
      assert Removed(ds, 0) == ds[1..];
    } else {
      WithNameRemoved(ds[1..], first, name);
      var rest := Removed(ds[1..], pos - 1);
      assert Removed(ds, pos) == [ds[0]] + rest;
      assert ([ds[0]] + rest)[1..] == rest;
    }
  }

  /** Displays of the same name stay in the order in which dxgi listed them. */
  lemma {:induction false} EqualNamesStayInOrder(names: seq<string>, ds: seq<Display>, name: string)
    requires |names| == |ds| && NoMiss(names, ds)
    ensures WithName(Reordered(names, ds), name) == WithName(ds, name)
    decreases |names|
  {
    hide Position;
    if names != [] {
      var pos := Pick(ds, names[0]);
      var rest := Removed(ds, pos);
      var later := Reordered(names[1..], rest);
      EqualNamesStayInOrder(names[1..], rest, name);
      WithNameRemoved(ds, names[0], name);
      assert ([ds[pos]] + later)[1..] == later;
      PickFinds(ds, names[0]);
    }
  }

  lemma {:induction false} PickFinds(ds: seq<Display>, name: string)
    requires Position(ds, name).Some?
    ensures ds[Pick(ds, name)].name == name
  {
  }

  // ----- the loop -----

  lemma {:induction false} ReorderedStep(names: seq<string>, i: nat, ds: seq<Display>, ordered: seq<Display>)
    requires i < |names| && |ds| == |names| - i
    ensures var pos := Pick(ds, names[i]);
            ordered + Reordered(names[i..], ds) == (ordered + [ds[pos]]) + Reordered(names[i + 1..], Removed(ds, pos))
  {
    hide Pick;
    assert names[i..][1..] == names[i + 1..];
    var pos := Pick(ds, names[i]);
    var later := Reordered(names[i + 1..], Removed(ds, pos));
    assert ordered + ([ds[pos]] + later) == (ordered + [ds[pos]]) + later;
  }

  lemma {:induction false} NothingLeft(names: seq<string>, ds: seq<Display>, ordered: seq<Display>)
    requires ds == []
    ensures ordered + Reordered(names[|names|..], ds) == ordered
  {
  }

  method All(displaysGdi: seq<Display>, displaysDxgi: seq<Display>) returns (r: seq<Display>)
    ensures r == Chosen(displaysGdi, displaysDxgi)
  {
    hide Position, Pick, Reordered;
    if displaysDxgi == [] {
      return displaysGdi;
    }
    if |displaysDxgi| != |displaysGdi| {
      return displaysDxgi;
    }
    var namesGdi, namesDxgi := Names(displaysGdi), Names(displaysDxgi);
    for i := 0 to |namesGdi|
      invariant forall k :: 0 <= k < i ==> namesGdi[k] in namesDxgi
    {
      if namesGdi[i] !in namesDxgi {
        return displaysDxgi;
      }
    }
    var rest := displaysDxgi;
    var ordered: seq<Display> := [];
    for i := 0 to |namesGdi|
      invariant 0 <= i <= |namesGdi| && |rest| == |namesGdi| - i
      invariant Reordered(namesGdi, displaysDxgi) == ordered + Reordered(namesGdi[i..], rest)
    {
      var pos := FindPosition(rest, namesGdi[i]);
      ReorderedStep(namesGdi, i, rest, ordered);
      ordered := ordered + [rest[pos]];
      rest := rest[..pos] + rest[pos + 1..];
    }
    NothingLeft(namesGdi, rest, ordered);
    return ordered;
  }

  method FindPosition(ds: seq<Display>, name: string) returns (pos: nat)
    requires ds != []
    ensures pos == Pick(ds, name)
  {
    for i := 0 to |ds|
      invariant match Position(ds, name)
                case None => Position(ds[i..], name) == None
                case Some(p) => Position(ds[i..], name) == Some(p - i)
    {
      if ds[i].name == name {
        return i;
      }
      assert ds[i..][1..] == ds[i + 1..];
    }
    return 0;
  }
}
