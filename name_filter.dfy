/**
 * The list state of a name filter panel: an include list and an exclude list of elements, the master
 * ordering `m_order` every element was first seen in, the elements hidden from both lists, and the
 * names that are kept although they are no longer available ("invalid" includes and excludes).
 * The buttons move elements between the two lists; the priority map orders the filter types.
 *
 * Elements are of a type `T` the panel converts to and from names (`getTforName`, `getNameForT`); both
 * conversions, and the input filter, are supplied as functions.  The state is specified as a value
 * (`Lists`) by the functions of this module, and the class `NameFilterPanel` changes it in place.
 */
module NameFilter {
  import opened Outcomes
  import opened Sequences
  import opened FilterTableModel

  /** The list state of the panel. */
  datatype Lists<T> = Lists(
    order: seq<T>,                 // `m_order`, an insertion-ordered set
    incl: seq<T>,                  // the rows of the include table
    excl: seq<T>,                  // the rows of the exclude table
    hidden: set<T>,                // `m_hideNames`
    invalidIncludes: seq<string>,  // included names that are no longer available
    invalidExcludes: seq<string>)  // excluded names that are no longer available

  /** The same state seen from the other side: the two lists, and their invalid names, exchanged. */
  function Mirror<T>(s: Lists<T>): Lists<T>
  {
    Lists(s.order, s.excl, s.incl, s.hidden, s.invalidExcludes, s.invalidIncludes)
  }

  /** `isInvalidValue`: the name is an invalid include or an invalid exclude. */
  predicate IsInvalid<T>(s: Lists<T>, name: string)
  {
    name in s.invalidIncludes || name in s.invalidExcludes
  }

  // ----- update -----

  /** Whether the input filter, absent when `null`, lets an element through. */
  predicate Accepts<T>(filter: Option<T -> bool>, t: T)
  {
    filter.None? || filter.value(t)
  }

  /** The available names whose elements the filter lets through, in order. */
  function AcceptedNames<T>(names: seq<string>, forName: string -> T, filter: Option<T -> bool>): seq<string>
  {
    Keep(names, n => Accepts(filter, forName(n)))
  }

  /** The accepted names listed as included. */
  function IncludedNames<T>(names: seq<string>, ins: seq<string>, forName: string -> T,
                            filter: Option<T -> bool>): seq<string>
  {
    Keep(AcceptedNames(names, forName, filter), n => n in ins)
  }

  /** The accepted names listed as excluded and not as included. */
  function ExcludedNames<T>(names: seq<string>, ins: seq<string>, exs: seq<string>, forName: string -> T,
                            filter: Option<T -> bool>): seq<string>
  {
    Keep(AcceptedNames(names, forName, filter), n => n !in ins && n in exs)
  }

  /** The state `update` builds: each list starts with its invalid names and goes on with the accepted
      names it is configured with; the order holds all of them, each once; nothing is hidden. */
  function Updated<T(==)>(s: Lists<T>, ins: seq<string>, exs: seq<string>, names: seq<string>,
                          forName: string -> T, filter: Option<T -> bool>): Lists<T>
  {
    var invalidIn := MapSeq(s.invalidIncludes, forName);
    var invalidEx := MapSeq(s.invalidExcludes, forName);
    Lists(AddAllNew([], invalidIn + invalidEx + MapSeq(AcceptedNames(names, forName, filter), forName)),
          invalidIn + MapSeq(IncludedNames(names, ins, forName, filter), forName),
          invalidEx + MapSeq(ExcludedNames(names, ins, exs, forName, filter), forName),
          {}, s.invalidIncludes, s.invalidExcludes)
  }

  /** How one more available name extends the three name lists `update` builds. */
  lemma UpdatedNamesSnoc<T>(names: seq<string>, n: string, ins: seq<string>, exs: seq<string>,
                            forName: string -> T, filter: Option<T -> bool>)
    ensures AcceptedNames(names + [n], forName, filter) ==
            AcceptedNames(names, forName, filter) + (if Accepts(filter, forName(n)) then [n] else [])
    ensures IncludedNames(names + [n], ins, forName, filter) ==
            IncludedNames(names, ins, forName, filter) + (if Accepts(filter, forName(n)) && n in ins then [n] else [])
    ensures ExcludedNames(names + [n], ins, exs, forName, filter) ==
            ExcludedNames(names, ins, exs, forName, filter) +
            (if Accepts(filter, forName(n)) && n !in ins && n in exs then [n] else [])
  {
    assert (names + [n])[..|names|] == names;
    var accepted := AcceptedNames(names, forName, filter);
    assert (accepted + [n])[..|accepted|] == accepted;
  }

  /** How one more available name extends the element lists `update` builds. */
  lemma UpdatedElementsSnoc<T>(names: seq<string>, n: string, ins: seq<string>, exs: seq<string>,
                               forName: string -> T, filter: Option<T -> bool>)
    ensures MapSeq(AcceptedNames(names + [n], forName, filter), forName) ==
            MapSeq(AcceptedNames(names, forName, filter), forName) +
            (if Accepts(filter, forName(n)) then [forName(n)] else [])
    ensures MapSeq(IncludedNames(names + [n], ins, forName, filter), forName) ==
            MapSeq(IncludedNames(names, ins, forName, filter), forName) +
            (if Accepts(filter, forName(n)) && n in ins then [forName(n)] else [])
    ensures MapSeq(ExcludedNames(names + [n], ins, exs, forName, filter), forName) ==
            MapSeq(ExcludedNames(names, ins, exs, forName, filter), forName) +
            (if Accepts(filter, forName(n)) && n !in ins && n in exs then [forName(n)] else [])
  {
    UpdatedNamesSnoc(names, n, ins, exs, forName, filter);
    MapSeqConcat(AcceptedNames(names, forName, filter), [n], forName);
    MapSeqConcat(IncludedNames(names, ins, forName, filter), [n], forName);
    MapSeqConcat(ExcludedNames(names, ins, exs, forName, filter), [n], forName);
  }

  /** An accepted name goes to the include list when listed in `ins`, otherwise to the exclude list when
      listed in `exs`, otherwise to neither; a name the filter rejects goes nowhere. */
  lemma {:induction false} UpdatedNamesPlaced<T>(names: seq<string>, ins: seq<string>, exs: seq<string>,
                                                 forName: string -> T, filter: Option<T -> bool>)
    ensures forall n :: n in AcceptedNames(names, forName, filter) <==> n in names && Accepts(filter, forName(n))
    ensures forall n :: n in IncludedNames(names, ins, forName, filter) <==>
                          n in names && Accepts(filter, forName(n)) && n in ins
    ensures forall n :: n in ExcludedNames(names, ins, exs, forName, filter) <==>
                          n in names && Accepts(filter, forName(n)) && n !in ins && n in exs
  {
    if names != [] {
      var k := |names| - 1;
      UpdatedNamesPlaced(names[..k], ins, exs, forName, filter);
      UpdatedNamesSnoc(names[..k], names[k], ins, exs, forName, filter);
      assert names == names[..k] + [names[k]];
    }
  }

  /** After `update`: the invalid names come first in their lists, each accepted name is placed as its
      configuration says and recorded in the order, the order holds no element twice, and an element the
      filter rejects is in no list and not in the order unless an invalid name stands for it. */
  lemma UpdatePlacesNames<T>(s: Lists<T>, ins: seq<string>, exs: seq<string>, names: seq<string>,
                             forName: string -> T, filter: Option<T -> bool>)
    ensures var r := Updated(s, ins, exs, names, forName, filter);
            && r.incl[..|s.invalidIncludes|] == MapSeq(s.invalidIncludes, forName)
            && r.excl[..|s.invalidExcludes|] == MapSeq(s.invalidExcludes, forName)
            && Distinct(r.order)
            && r.hidden == {}
    ensures var r := Updated(s, ins, exs, names, forName, filter);
            forall n :: n in names && Accepts(filter, forName(n)) ==>
              && forName(n) in r.order
              && (n in ins ==> forName(n) in r.incl)
              && (n !in ins && n in exs ==> forName(n) in r.excl)
    ensures var r := Updated(s, ins, exs, names, forName, filter);
            forall t :: !Accepts(filter, t) && t !in MapSeq(s.invalidIncludes, forName) &&
                        t !in MapSeq(s.invalidExcludes, forName) ==>
              t !in r.order && t !in r.incl && t !in r.excl
  {
    var r := Updated(s, ins, exs, names, forName, filter);
    var invalidIn := MapSeq(s.invalidIncludes, forName);
    var invalidEx := MapSeq(s.invalidExcludes, forName);
    var accepted := AcceptedNames(names, forName, filter);
    var included := IncludedNames(names, ins, forName, filter);
    var excluded := ExcludedNames(names, ins, exs, forName, filter);
    UpdatedNamesPlaced(names, ins, exs, forName, filter);
    AddAllNewMembers([], invalidIn + invalidEx + MapSeq(accepted, forName));
    MapSeqMembers(accepted, forName);
    MapSeqMembers(included, forName);
    MapSeqMembers(excluded, forName);
    forall n | n in names && Accepts(filter, forName(n))
      ensures forName(n) in r.order
    {
      assert forName(n) in MapSeq(accepted, forName);
      assert forName(n) in invalidIn + invalidEx + MapSeq(accepted, forName);
    }
    forall t | !Accepts(filter, t) && t !in invalidIn && t !in invalidEx
      ensures t !in r.order && t !in r.incl && t !in r.excl
    {
      assert t !in MapSeq(accepted, forName);
      assert t !in MapSeq(included, forName);
      assert t !in MapSeq(excluded, forName);
    }
  }

  // ----- the include and exclude getters -----

  /** The elements of `xs` whose names are valid, each once, in order of first occurrence: the
      `LinkedHashSet` `getIncludeList` and `getExcludeList` fill. */
  function ValidElements<T(==)>(s: Lists<T>, xs: seq<T>, name: T -> string): seq<T>
  {
    AddAllNew([], Keep(xs, t => !IsInvalid(s, name(t))))
  }

  /** One more row is collected when its name is valid and it was not collected before. */
  lemma ValidElementsSnoc<T>(s: Lists<T>, xs: seq<T>, t: T, name: T -> string)
    ensures ValidElements(s, xs + [t], name) ==
            if IsInvalid(s, name(t)) then ValidElements(s, xs, name) else AddNew(ValidElements(s, xs, name), t)
  {
    assert (xs + [t])[..|xs|] == xs;
    var kept := Keep(xs, u => !IsInvalid(s, name(u)));
    assert (kept + [t])[..|kept|] == kept;
  }

  /** The getters return exactly the elements of the list with valid names, without duplicates, and, for
      a list without duplicates, in list order. */
  lemma ValidElementsSpec<T>(s: Lists<T>, xs: seq<T>, name: T -> string)
    ensures forall t :: t in ValidElements(s, xs, name) <==> t in xs && !IsInvalid(s, name(t))
    ensures Distinct(ValidElements(s, xs, name))
    ensures Distinct(xs) ==> forall a, b :: Precedes(ValidElements(s, xs, name), a, b) <==>
                                           Precedes(xs, a, b) && !IsInvalid(s, name(a)) && !IsInvalid(s, name(b))
  {
    var p := t => !IsInvalid(s, name(t));
    KeepMembers(xs, p);
    AddAllNewMembers([], Keep(xs, p));
    if Distinct(xs) {
      KeepDistinct(xs, p);
      assert [] + Keep(xs, p) == Keep(xs, p);
      AddAllNewFresh([], Keep(xs, p));
      forall a, b
        ensures Precedes(ValidElements(s, xs, name), a, b) <==>
                Precedes(xs, a, b) && !IsInvalid(s, name(a)) && !IsInvalid(s, name(b))
      {
        PrecedesMembers(Keep(xs, p), a, b);
        if p(a) && p(b) {
          KeepPrecedes(xs, p, a, b);
        }
      }
    }
  }

  // ----- hideNames and resetHiding -----

  /** One name of `hideNames`: taken out of the include list if there, else out of the exclude list if
      there, and recorded as hidden; a name in neither list is ignored. */
  function HideOne<T(==)>(s: Lists<T>, t: T): Lists<T>
  {
    if t in s.incl then s.(incl := RemoveFirst(s.incl, t), hidden := s.hidden + {t})
    else if t in s.excl then s.(excl := RemoveFirst(s.excl, t), hidden := s.hidden + {t})
    else s
  }

  /** `hideNames` over all given names, in order. */
  function Hidden<T(==)>(s: Lists<T>, names: seq<T>): Lists<T>
  {
    if names == [] then s else HideOne(Hidden(s, names[..|names| - 1]), names[|names| - 1])
  }

  /** One occurrence of a hidden name leaves exactly one list, the include list first; the order and the
      invalid names stay as they are. */
  lemma HideOneSpec<T>(s: Lists<T>, t: T)
    ensures var r := HideOne(s, t);
            && r.order == s.order && r.invalidIncludes == s.invalidIncludes && r.invalidExcludes == s.invalidExcludes
            && (t in s.incl ==>
                  multiset(r.incl) == multiset(s.incl) - multiset{t} && r.excl == s.excl &&
                  r.hidden == s.hidden + {t})
            && (t !in s.incl && t in s.excl ==>
                  multiset(r.excl) == multiset(s.excl) - multiset{t} && r.incl == s.incl &&
                  r.hidden == s.hidden + {t})
            && (t !in s.incl && t !in s.excl ==> r == s)
  {
    RemoveFirstCount(s.incl, t);
    RemoveFirstCount(s.excl, t);
  }

  /** `hideNames` leaves the order and the invalid names as they are and hides only given names. */
  lemma {:induction false} HiddenKeepsOrder<T>(s: Lists<T>, names: seq<T>)
    ensures var r := Hidden(s, names);
            && r.order == s.order && r.invalidIncludes == s.invalidIncludes && r.invalidExcludes == s.invalidExcludes
            && s.hidden <= r.hidden && r.hidden <= s.hidden + Elements(names)
  {
    if names != [] {
      var k := |names| - 1;
      HiddenKeepsOrder(s, names[..k]);
      assert names[k] in names;
      assert forall t :: t in names[..k] ==> t in names;
    }
  }

  /** After `hideNames` the lists only lost rows, and every element that lost a row is hidden. */
  lemma {:induction false} HiddenRowsAreHidden<T>(s: Lists<T>, names: seq<T>)
    ensures var r := Hidden(s, names);
            && multiset(r.incl) <= multiset(s.incl) && multiset(r.excl) <= multiset(s.excl)
            && forall t :: (multiset(r.incl)[t] + multiset(r.excl)[t] < multiset(s.incl)[t] + multiset(s.excl)[t])
                             ==> t in r.hidden
  {
    if names != [] {
      var k := |names| - 1;
      var before := Hidden(s, names[..k]);
      HiddenRowsAreHidden(s, names[..k]);
      HiddenKeepsOrder(s, names[..k]);
      HideOneSpec(before, names[k]);
    }
  }

  /** The elements of the order that are in `hash`, in the order's order. */
  function InOrder<T(==)>(order: seq<T>, hash: set<T>): seq<T>
  {
    Keep(order, t => t in hash)
  }

  /** One more element of the order is taken exactly when it is in `hash`. */
  lemma InOrderSnoc<T>(order: seq<T>, t: T, hash: set<T>)
    ensures InOrder(order + [t], hash) == if t in hash then InOrder(order, hash) + [t] else InOrder(order, hash)
  {
    assert (order + [t])[..|order|] == order;
  }

  /** The elements taken are exactly those of the order in `hash`, in the order's relative order, and
      without duplicates when the order has none. */
  lemma InOrderSpec<T>(order: seq<T>, hash: set<T>)
    ensures forall t :: t in InOrder(order, hash) <==> t in order && t in hash
    ensures forall a, b :: a in hash && b in hash ==> (Precedes(InOrder(order, hash), a, b) <==> Precedes(order, a, b))
    ensures Distinct(order) ==> Distinct(InOrder(order, hash))
  {
    KeepMembers(order, t => t in hash);
    forall a, b | a in hash && b in hash
      ensures Precedes(InOrder(order, hash), a, b) <==> Precedes(order, a, b)
    {
      KeepPrecedes(order, t => t in hash, a, b);
    }
    if Distinct(order) {
      KeepDistinct(order, t => t in hash);
    }
  }

  /** `resetHiding`: with hidden elements, the exclude list becomes the elements of the order that are
      hidden or excluded, and nothing stays hidden. */
  function ResetHidden<T(==)>(s: Lists<T>): Lists<T>
  {
    if s.hidden == {} then s
    else s.(excl := InOrder(s.order, s.hidden + Elements(s.excl)), hidden := {})
  }

  /** `resetHiding` changes nothing without hidden elements; otherwise it brings the hidden elements of
      the order back into the exclude list, in the order's order, and touches nothing else. */
  lemma ResetHiddenSpec<T>(s: Lists<T>)
    ensures s.hidden == {} ==> ResetHidden(s) == s
    ensures var r := ResetHidden(s);
            && r.hidden == {} && r.order == s.order && r.incl == s.incl
            && r.invalidIncludes == s.invalidIncludes && r.invalidExcludes == s.invalidExcludes
    ensures s.hidden != {} ==>
              && (forall t :: t in ResetHidden(s).excl <==> t in s.order && (t in s.hidden || t in s.excl))
              && (Distinct(s.order) ==> Distinct(ResetHidden(s).excl))
  {
    InOrderSpec(s.order, s.hidden + Elements(s.excl));
  }

  // ----- onRemIt and onAddIt -----

  /** The loop of `onRemIt` over the order: for each element in `hash` whose name is in `from`, one
      occurrence of the name moves from `from` to the end of `to`. */
  function Transfer<T(==)>(order: seq<T>, hash: set<T>, from: seq<string>, to: seq<string>, name: T -> string)
    : (seq<string>, seq<string>)
  {
    if order == [] then (from, to)
    else
      var moved := Transfer(order[..|order| - 1], hash, from, to, name);
      var c := order[|order| - 1];
      if c in hash && name(c) in moved.0 then (RemoveFirst(moved.0, name(c)), moved.1 + [name(c)]) else moved
  }

  /** One more element of the order moves its name when it is in `hash` and the name is still in `from`. */
  lemma TransferSnoc<T>(order: seq<T>, c: T, hash: set<T>, from: seq<string>, to: seq<string>, name: T -> string)
    ensures var moved := Transfer(order, hash, from, to, name);
            Transfer(order + [c], hash, from, to, name) ==
              if c in hash && name(c) in moved.0 then (RemoveFirst(moved.0, name(c)), moved.1 + [name(c)]) else moved
  {
    assert (order + [c])[..|order|] == order;
  }

  /** Names only move, never appear or vanish, and `to` only grows at its end. */
  lemma {:induction false} TransferSpec<T>(order: seq<T>, hash: set<T>, from: seq<string>, to: seq<string>,
                                           name: T -> string)
    ensures var r := Transfer(order, hash, from, to, name);
            && multiset(r.0) + multiset(r.1) == multiset(from) + multiset(to)
            && |to| <= |r.1| && r.1[..|to|] == to
  {
    if order != [] {
      var k := |order| - 1;
      var c := order[k];
      TransferSpec(order[..k], hash, from, to, name);
      var moved := Transfer(order[..k], hash, from, to, name);
      if c in hash && name(c) in moved.0 {
        RemoveFirstCount(moved.0, name(c));
        assert (moved.1 + [name(c)])[..|to|] == moved.1[..|to|];
      }
    }
  }

  /** The name of every element of the order in `hash` whose name was in `from` ends up in `to`. */
  lemma {:induction false} TransferMovesNames<T>(order: seq<T>, hash: set<T>, from: seq<string>, to: seq<string>,
                                                 name: T -> string)
    ensures var r := Transfer(order, hash, from, to, name);
            forall c :: c in order && c in hash && name(c) in from ==> name(c) in r.1
  {
    if order != [] {
      var k := |order| - 1;
      var c := order[k];
      TransferMovesNames(order[..k], hash, from, to, name);
      TransferSpec(order[..k], hash, from, to, name);
      var moved := Transfer(order[..k], hash, from, to, name);
      forall d | d in order && d in hash && name(d) in from
        ensures name(d) in Transfer(order, hash, from, to, name).1
      {
        if d != c {
          assert d in order[..k] by {
            assert order == order[..k] + [c];
          }
        } else {
          assert name(d) in multiset(moved.0) + multiset(moved.1);
        }
      }
    }
  }

  /** `onRemIt` before its final clean-up: the selected elements leave the include list; the exclude list
      becomes the elements of the order that are selected or were excluded; names of moved elements that
      were invalid includes become invalid excludes. */
  function MovedOut<T(==)>(s: Lists<T>, selected: seq<T>, name: T -> string): Lists<T>
  {
    var hash := Elements(selected) + Elements(s.excl);
    var moved := Transfer(s.order, hash, s.invalidIncludes, s.invalidExcludes, name);
    s.(incl := RemoveEvery(s.incl, selected), excl := InOrder(s.order, hash),
       invalidIncludes := moved.0, invalidExcludes := moved.1)
  }

  /** `onAddIt` before its final clean-up: the mirror image of `onRemIt`. */
  function MovedIn<T(==)>(s: Lists<T>, selected: seq<T>, name: T -> string): Lists<T>
  {
    Mirror(MovedOut(Mirror(s), selected, name))
  }

  /** What `onRemIt` does to the lists, before cleaning up invalid names. */
  lemma MovedOutSpec<T>(s: Lists<T>, selected: seq<T>, name: T -> string)
    ensures var r := MovedOut(s, selected, name);
            && r.order == s.order && r.hidden == s.hidden
            && (forall t :: multiset(r.incl)[t] == if t in selected then 0 else multiset(s.incl)[t])
            && (forall t :: t in r.excl <==> t in s.order && (t in selected || t in s.excl))
            && (forall a, b :: (a in selected || a in s.excl) && (b in selected || b in s.excl) ==>
                                 (Precedes(r.excl, a, b) <==> Precedes(s.order, a, b)))
            && (Distinct(s.order) ==> Distinct(r.excl))
            && multiset(r.invalidIncludes) + multiset(r.invalidExcludes) ==
               multiset(s.invalidIncludes) + multiset(s.invalidExcludes)
            && |s.invalidExcludes| <= |r.invalidExcludes| && r.invalidExcludes[..|s.invalidExcludes|] == s.invalidExcludes
            && (forall t :: t in s.order && (t in selected || t in s.excl) && name(t) in s.invalidIncludes ==>
                              name(t) in r.invalidExcludes)
  {
    var hash := Elements(selected) + Elements(s.excl);
    RemoveEverySpec(s.incl, [], selected);
    InOrderSpec(s.order, hash);
    TransferSpec(s.order, hash, s.invalidIncludes, s.invalidExcludes, name);
    TransferMovesNames(s.order, hash, s.invalidIncludes, s.invalidExcludes, name);
  }

  /** What `onAddIt` does to the lists, before cleaning up invalid names: the mirror image of `onRemIt`. */
  lemma MovedInSpec<T>(s: Lists<T>, selected: seq<T>, name: T -> string)
    ensures var r := MovedIn(s, selected, name);
            && r.order == s.order && r.hidden == s.hidden
            && (forall t :: multiset(r.excl)[t] == if t in selected then 0 else multiset(s.excl)[t])
            && (forall t :: t in r.incl <==> t in s.order && (t in selected || t in s.incl))
            && (forall a, b :: (a in selected || a in s.incl) && (b in selected || b in s.incl) ==>
                                 (Precedes(r.incl, a, b) <==> Precedes(s.order, a, b)))
            && (Distinct(s.order) ==> Distinct(r.incl))
            && multiset(r.invalidExcludes) + multiset(r.invalidIncludes) ==
               multiset(s.invalidExcludes) + multiset(s.invalidIncludes)
            && |s.invalidIncludes| <= |r.invalidIncludes| && r.invalidIncludes[..|s.invalidIncludes|] == s.invalidIncludes
            && (forall t :: t in s.order && (t in selected || t in s.incl) && name(t) in s.invalidExcludes ==>
                              name(t) in r.invalidIncludes)
  {
    MovedOutSpec(Mirror(s), selected, name);
  }

  // ----- onRemAll and onAddAll -----

  /** The elements of the order that are not hidden, in order. */
  function Visible<T(==)>(order: seq<T>, hidden: set<T>): seq<T>
  {
    Keep(order, t => t !in hidden)
  }

  /** One more element of the order is visible exactly when it is not hidden. */
  lemma VisibleSnoc<T>(order: seq<T>, t: T, hidden: set<T>)
    ensures Visible(order + [t], hidden) == if t !in hidden then Visible(order, hidden) + [t] else Visible(order, hidden)
  {
    assert (order + [t])[..|order|] == order;
  }

  /** `onRemAll` before its clean-up: everything visible is excluded, and every invalid include becomes
      an invalid exclude, after the existing ones. */
  function AllMovedOut<T(==)>(s: Lists<T>): Lists<T>
  {
    s.(incl := [], excl := Visible(s.order, s.hidden),
       invalidIncludes := [], invalidExcludes := s.invalidExcludes + s.invalidIncludes)
  }

  /** `onAddAll` before its clean-up: the mirror image of `onRemAll`. */
  function AllMovedIn<T(==)>(s: Lists<T>): Lists<T>
  {
    Mirror(AllMovedOut(Mirror(s)))
  }

  /** After `onRemAll` the include list is empty and the exclude list holds the visible elements of the
      order, in its order; `onAddAll` is the mirror image. */
  lemma AllMovedSpec<T>(s: Lists<T>)
    ensures var r := AllMovedOut(s);
            && r.incl == [] && r.invalidIncludes == [] && r.invalidExcludes == s.invalidExcludes + s.invalidIncludes
            && (forall t :: t in r.excl <==> t in s.order && t !in s.hidden)
            && (forall a, b :: a !in s.hidden && b !in s.hidden ==> (Precedes(r.excl, a, b) <==> Precedes(s.order, a, b)))
    ensures var r := AllMovedIn(s);
            && r.excl == [] && r.invalidExcludes == [] && r.invalidIncludes == s.invalidIncludes + s.invalidExcludes
            && (forall t :: t in r.incl <==> t in s.order && t !in s.hidden)
            && (forall a, b :: a !in s.hidden && b !in s.hidden ==> (Precedes(r.incl, a, b) <==> Precedes(s.order, a, b)))
  {
    KeepMembers(s.order, t => t !in s.hidden);
    forall a, b | a !in s.hidden && b !in s.hidden
      ensures Precedes(Visible(s.order, s.hidden), a, b) <==> Precedes(s.order, a, b)
    {
      KeepPrecedes(s.order, t => t !in s.hidden, a, b);
    }
  }

  // ----- cleanInvalidValues -----

  /** `LinkedHashSet.remove` on the order. */
  function Erase<T(==)>(order: seq<T>, t: T): seq<T>
  {
    Keep(order, u => u != t)
  }

  /** Erasing takes out exactly the erased element. */
  lemma EraseMembers<T>(order: seq<T>, t: T)
    ensures forall u :: u in Erase(order, t) <==> u in order && u != t
  {
    KeepMembers(order, u => u != t);
  }

  /** The loop of `cleanInvalidValues` over one list, as evidently intended: the rows are examined front
      to back; a row whose name is invalid (in `own` or in `other`) is dropped, one occurrence of its
      name leaves `own` and its element leaves the order; any other row stays.  The result is the rows
      kept, what is left of `own`, and the order. */
  function CleanFrom<T(==)>(rows: seq<T>, own: seq<string>, other: seq<string>, order: seq<T>, name: T -> string)
    : (seq<T>, seq<string>, seq<T>)
    decreases |rows|
  {
    if rows == [] then ([], own, order)
    else
      var e := rows[0];
      if name(e) in own || name(e) in other then
        CleanFrom(rows[1..], RemoveFirst(own, name(e)), other, Erase(order, e), name)
      else
        var rest := CleanFrom(rows[1..], own, other, order, name);
        ([e] + rest.0, rest.1, rest.2)
  }

  /** One step of the clean-up from row `i` on: the row is dropped, or kept in front of the rest. */
  lemma CleanFromStep<T>(rows: seq<T>, i: nat, own: seq<string>, other: seq<string>, order: seq<T>,
                         name: T -> string)
    requires i < |rows|
    ensures var e := rows[i];
            name(e) in own || name(e) in other ==>
              CleanFrom(rows[i..], own, other, order, name) ==
              CleanFrom(rows[i + 1..], RemoveFirst(own, name(e)), other, Erase(order, e), name)
    ensures var e := rows[i];
            var rest := CleanFrom(rows[i + 1..], own, other, order, name);
            name(e) !in own && name(e) !in other ==>
              CleanFrom(rows[i..], own, other, order, name) == ([e] + rest.0, rest.1, rest.2)
  {
    assert rows[i..][0] == rows[i] && rows[i..][1..] == rows[i + 1..];
  }

  /** `cleanInvalidValues`: with exclusion enforced the include list is cleaned, its invalid names being
      the invalid includes; otherwise the exclude list, with the invalid excludes. */
  function CleanInvalid<T(==)>(s: Lists<T>, enforceExclusion: bool, name: T -> string): Lists<T>
  {
    if enforceExclusion then
      var r := CleanFrom(s.incl, s.invalidIncludes, s.invalidExcludes, s.order, name);
      s.(incl := r.0, invalidIncludes := r.1, order := r.2)
    else
      var r := CleanFrom(s.excl, s.invalidExcludes, s.invalidIncludes, s.order, name);
      s.(excl := r.0, invalidExcludes := r.1, order := r.2)
  }

  /** Cleaning only takes away rows and invalid names. */
  lemma {:induction false} CleanFromShrinks<T>(rows: seq<T>, own: seq<string>, other: seq<string>, order: seq<T>,
                                               name: T -> string)
    ensures var r := CleanFrom(rows, own, other, order, name);
            multiset(r.0) <= multiset(rows) && multiset(r.1) <= multiset(own)
    decreases |rows|
  {
    if rows != [] {
      var e := rows[0];
      assert rows == [e] + rows[1..];
      if name(e) in own || name(e) in other {
        RemoveFirstCount(own, name(e));
        CleanFromShrinks(rows[1..], RemoveFirst(own, name(e)), other, Erase(order, e), name);
      } else {
        CleanFromShrinks(rows[1..], own, other, order, name);
      }
    }
  }

  /** Cleaning takes elements out of the order, and only elements that had a row in the list. */
  lemma {:induction false} CleanFromOrder<T>(rows: seq<T>, own: seq<string>, other: seq<string>, order: seq<T>,
                                             name: T -> string)
    ensures var r := CleanFrom(rows, own, other, order, name);
            && (forall t :: t in r.2 ==> t in order)
            && (forall t :: t in order && t !in rows ==> t in r.2)
    decreases |rows|
  {
    if rows != [] {
      var e := rows[0];
      assert rows == [e] + rows[1..];
      if name(e) in own || name(e) in other {
        EraseMembers(order, e);
        var r := CleanFrom(rows[1..], RemoveFirst(own, name(e)), other, Erase(order, e), name);
        CleanFromOrder(rows[1..], RemoveFirst(own, name(e)), other, Erase(order, e), name);
        assert forall t :: t in r.2 ==> t in Erase(order, e);
        forall t | t in order && t !in rows
          ensures t in Erase(order, e)
        {
        }
      } else {
        CleanFromOrder(rows[1..], own, other, order, name);
      }
    }
  }

  /** After cleaning, no row left has a name among the invalid names that are left or among `other`. */
  lemma {:induction false} CleanFromValid<T>(rows: seq<T>, own: seq<string>, other: seq<string>, order: seq<T>,
                                             name: T -> string)
    ensures var r := CleanFrom(rows, own, other, order, name);
            forall t :: t in r.0 ==> name(t) !in r.1 && name(t) !in other
    decreases |rows|
  {
    if rows != [] {
      var e := rows[0];
      if name(e) in own || name(e) in other {
        CleanFromValid(rows[1..], RemoveFirst(own, name(e)), other, Erase(order, e), name);
      } else {
        CleanFromValid(rows[1..], own, other, order, name);
        CleanFromShrinks(rows[1..], own, other, order, name);
        RemoveFirstCount(own, name(e));
      }
    }
  }

  /** Every row whose name was valid from the start stays, with all its occurrences. */
  lemma {:induction false} CleanFromKeepsValid<T>(rows: seq<T>, own: seq<string>, other: seq<string>, order: seq<T>,
                                                  name: T -> string)
    ensures var r := CleanFrom(rows, own, other, order, name);
            forall t :: name(t) !in own && name(t) !in other ==> multiset(r.0)[t] == multiset(rows)[t]
    decreases |rows|
  {
    if rows != [] {
      var e := rows[0];
      var tail := rows[1..];
      assert rows == [e] + tail;
      var r := CleanFrom(rows, own, other, order, name);
      if name(e) in own || name(e) in other {
        var own' := RemoveFirst(own, name(e));
        RemoveFirstCount(own, name(e));
        CleanFromKeepsValid(tail, own', other, Erase(order, e), name);
        forall t | name(t) !in own && name(t) !in other
          ensures multiset(r.0)[t] == multiset(rows)[t]
        {
          assert name(t) !in multiset(own);
          assert name(t) !in multiset(own');
          assert t != e;
        }
      } else {
        CleanFromKeepsValid(tail, own, other, order, name);
        forall t | name(t) !in own && name(t) !in other
          ensures multiset(r.0)[t] == multiset(rows)[t]
        {
          assert multiset(r.0) == multiset{e} + multiset(CleanFrom(tail, own, other, order, name).0);
        }
      }
    }
  }

  /** `cleanInvalidValues` cleans exactly one list, the include list when exclusion is enforced: the other
      list, the hidden elements and the other side's invalid names stay; the cleaned list keeps only rows
      with valid names, and all rows whose names were valid. */
  lemma CleanInvalidSpec<T>(s: Lists<T>, enforceExclusion: bool, name: T -> string)
    ensures var r := CleanInvalid(s, enforceExclusion, name);
            && r.hidden == s.hidden
            && (enforceExclusion ==> r.excl == s.excl && r.invalidExcludes == s.invalidExcludes)
            && (!enforceExclusion ==> r.incl == s.incl && r.invalidIncludes == s.invalidIncludes)
            && (forall t :: t in r.order ==> t in s.order)
    ensures var r := CleanInvalid(s, enforceExclusion, name);
            var (before, after) := if enforceExclusion then (s.incl, r.incl) else (s.excl, r.excl);
            && multiset(after) <= multiset(before)
            && (forall t :: t in after ==> !IsInvalid(r, name(t)))
            && (forall t :: !IsInvalid(s, name(t)) ==> multiset(after)[t] == multiset(before)[t])
    ensures CleanInvalid(s, false, name) == Mirror(CleanInvalid(Mirror(s), true, name))
  {
    CleanFromShrinks(s.incl, s.invalidIncludes, s.invalidExcludes, s.order, name);
    CleanFromOrder(s.incl, s.invalidIncludes, s.invalidExcludes, s.order, name);
    CleanFromValid(s.incl, s.invalidIncludes, s.invalidExcludes, s.order, name);
    CleanFromKeepsValid(s.incl, s.invalidIncludes, s.invalidExcludes, s.order, name);
    CleanFromShrinks(s.excl, s.invalidExcludes, s.invalidIncludes, s.order, name);
    CleanFromOrder(s.excl, s.invalidExcludes, s.invalidIncludes, s.order, name);
    CleanFromValid(s.excl, s.invalidExcludes, s.invalidIncludes, s.order, name);
    CleanFromKeepsValid(s.excl, s.invalidExcludes, s.invalidIncludes, s.order, name);
  }

  /** After `onRemAll` with exclusion enforced there is nothing to clean: the include list is empty. */
  lemma CleanAfterAllMovedOut<T>(s: Lists<T>, name: T -> string)
    ensures CleanInvalid(AllMovedOut(s), true, name) == AllMovedOut(s)
    ensures CleanInvalid(AllMovedIn(s), false, name) == AllMovedIn(s)
  {
  }

  /** The state of the loop of `cleanInvalidValues` over one list: its rows, its invalid names, the order,
      and the loop index. */
  datatype CleanLoop<T> = CleanLoop(rows: seq<T>, own: seq<string>, order: seq<T>, i: int)

  /** One pass of the loop body of `cleanInvalidValues` as written, followed by the loop's `i++`.  The row
      removal `remove(i--)` passes the index to `remove(Object)`, the only `remove` of the table model: the
      boxed `Integer` equals no row, so no row goes, and the index is rewound all the same. */
  function CleanStepAsWritten<T(==)>(st: CleanLoop<T>, other: seq<string>, name: T -> string): CleanLoop<T>
    requires 0 <= st.i < |st.rows|
  {
    var e := st.rows[st.i];
    if name(e) in st.own || name(e) in other then
      var rows := ElementsOf(RemoveFirst(Boxed(st.rows), ColumnIndex(st.i)));
      CleanLoop(rows, RemoveFirst(st.own, name(e)), Erase(st.order, e), (st.i - 1) + 1)
    else
      CleanLoop(st.rows, st.own, st.order, st.i + 1)
  }

  /** `steps` turns of the loop as written, stopping when the index leaves the list. */
  function CleanRunAsWritten<T(==)>(st: CleanLoop<T>, other: seq<string>, name: T -> string, steps: nat): CleanLoop<T>
    decreases steps
  {
    if steps == 0 || !(0 <= st.i < |st.rows|) then st
    else CleanRunAsWritten(CleanStepAsWritten(st, other, name), other, name, steps - 1)
  }

  /** As written, the loop never removes a row, however long it runs: invalid rows stay in the list. */
  lemma {:induction false} CleanKeepsRowsAsWritten<T>(st: CleanLoop<T>, other: seq<string>, name: T -> string,
                                                      steps: nat)
    ensures CleanRunAsWritten(st, other, name, steps).rows == st.rows
    decreases steps
  {
    if steps > 0 && 0 <= st.i < |st.rows| {
      BoxedIndexRemovesNothing(st.rows, st.i);
      CleanKeepsRowsAsWritten(CleanStepAsWritten(st, other, name), other, name, steps - 1);
    }
  }

  /** As written, a row whose name is an invalid name of the other list stops the loop: the index never
      gets past it, so the loop does not terminate. */
  lemma {:induction false} CleanStallsAsWritten<T>(st: CleanLoop<T>, other: seq<string>, name: T -> string,
                                                   steps: nat)
    requires 0 <= st.i < |st.rows| && name(st.rows[st.i]) in other
    ensures CleanRunAsWritten(st, other, name, steps).i == st.i
    ensures CleanRunAsWritten(st, other, name, steps).rows == st.rows
    decreases steps
  {
    if steps > 0 {
      BoxedIndexRemovesNothing(st.rows, st.i);
      CleanStallsAsWritten(CleanStepAsWritten(st, other, name), other, name, steps - 1);
    }
  }

  /** As intended, the same row is dropped from the list. */
  lemma CleanDropsRowNamedByOther<T>(rows: seq<T>, own: seq<string>, other: seq<string>, order: seq<T>,
                                     name: T -> string, i: nat)
    requires i < |rows| && name(rows[i]) in other
    ensures rows[i] !in CleanFrom(rows, own, other, order, name).0
  {
    CleanFromValid(rows, own, other, order, name);
  }

  // ----- getIncludeList as written -----

  /** `getIncludeList` as written: it reads each row through `getValueAt(i, 0)`, which yields the column
      index rather than the row's element, and naming that value (`getNameForT` after an unchecked cast)
      fails with a `ClassCastException`. */
  function IncludeListAsWritten<T(==)>(s: Lists<T>, rows: seq<T>, name: T -> string): Result<seq<T>, string>
  {
    if rows == [] then Ok([])
    else match IncludeListAsWritten(s, rows[..|rows| - 1], name)
      case Err(e) => Err(e)
      case Ok(list) =>
        match ValueAt(rows, |rows| - 1, 0)
        case Element(t) => if IsInvalid(s, name(t)) then Ok(list) else Ok(AddNew(list, t))
        case _ => Err("ClassCastException")
  }

  /** As written, `getIncludeList` fails for every non-empty include list, where the intended getter
      returns its valid elements. */
  lemma {:induction false} IncludeListAsWrittenFails<T>(s: Lists<T>, rows: seq<T>, name: T -> string)
    ensures rows == [] ==> IncludeListAsWritten(s, rows, name) == Ok([])
    ensures rows != [] ==> IncludeListAsWritten(s, rows, name).Err?
  {
    if rows != [] {
      IncludeListAsWrittenFails(s, rows[..|rows| - 1], name);
    }
  }

  // ----- onRemIt and onAddIt as written -----

  /** The selection as `onRemIt` and `onAddIt` read it: `getValueAt(row, 0)` of the table for each
      selected row, which is the column index (or the "invalid" marker past the end), never an element. */
  function SelectionAsRead<T>(rows: seq<T>, selectedRows: seq<int>): seq<TableValue<T>>
  {
    MapSeq(selectedRows, r => ValueAt(rows, r, 0))
  }

  /** Reading the selection through column 0 yields no element at all. */
  lemma {:induction false} SelectionAsReadHasNoElements<T>(rows: seq<T>, selectedRows: seq<int>)
    ensures ElementsOf(SelectionAsRead(rows, selectedRows)) == []
  {
    if selectedRows != [] {
      var n := |selectedRows| - 1;
      assert SelectionAsRead(rows, selectedRows)[..n] == SelectionAsRead(rows, selectedRows[..n]);
      SelectionAsReadHasNoElements(rows, selectedRows[..n]);
    }
  }

  /** `onRemIt` as written: the elements among the values read for the selected rows of the include table
      are moved out, and the invalid names are cleaned up, since `removeAll` always reports a change. */
  function OnRemItAsWritten<T(==)>(s: Lists<T>, selectedRows: seq<int>, enforceExclusion: bool,
                                   name: T -> string): Lists<T>
  {
    CleanInvalid(MovedOut(s, ElementsOf(SelectionAsRead(s.incl, selectedRows)), name), enforceExclusion, name)
  }

  /** `onAddIt` as written, the mirror image over the exclude table. */
  function OnAddItAsWritten<T(==)>(s: Lists<T>, selectedRows: seq<int>, enforceExclusion: bool,
                                   name: T -> string): Lists<T>
  {
    CleanInvalid(MovedIn(s, ElementsOf(SelectionAsRead(s.excl, selectedRows)), name), enforceExclusion, name)
  }

  /** As written, moving the selected rows moves nothing whatever rows are selected: the outcome is that of
      an empty selection.  A selected include row that was not excluded stays out of the exclude list,
      where the intended move puts it there; without enforced exclusion the include list is unchanged. */
  lemma OnRemItAsWrittenMovesNothing<T>(s: Lists<T>, selectedRows: seq<int>, enforceExclusion: bool,
                                        name: T -> string, t: T)
    ensures OnRemItAsWritten(s, selectedRows, enforceExclusion, name) == CleanInvalid(MovedOut(s, [], name), enforceExclusion, name)
    ensures !enforceExclusion ==> OnRemItAsWritten(s, selectedRows, enforceExclusion, name).incl == s.incl
    ensures t in s.order && t !in s.excl ==>
              && t !in OnRemItAsWritten(s, selectedRows, enforceExclusion, name).excl
              && t in MovedOut(s, [t], name).excl
  {
    SelectionAsReadHasNoElements(s.incl, selectedRows);
    var m := MovedOut(s, [], name);
    RemoveNothing(s.incl);
    InOrderSpec(s.order, Elements([]) + Elements(s.excl));
    InOrderSpec(s.order, Elements([t]) + Elements(s.excl));
    CleanFromShrinks(m.excl, m.invalidExcludes, m.invalidIncludes, m.order, name);
    if t in s.order && t !in s.excl {
      var r := CleanInvalid(m, enforceExclusion, name);
      assert multiset(m.excl)[t] == 0;
      assert multiset(r.excl)[t] == 0;
    }
  }

  /** The mirror image for `onAddIt`: an excluded row that was not included stays out of the include list. */
  lemma OnAddItAsWrittenMovesNothing<T>(s: Lists<T>, selectedRows: seq<int>, enforceExclusion: bool,
                                        name: T -> string, t: T)
    ensures OnAddItAsWritten(s, selectedRows, enforceExclusion, name) == CleanInvalid(MovedIn(s, [], name), enforceExclusion, name)
    ensures enforceExclusion ==> OnAddItAsWritten(s, selectedRows, enforceExclusion, name).excl == s.excl
    ensures t in s.order && t !in s.incl ==>
              && t !in OnAddItAsWritten(s, selectedRows, enforceExclusion, name).incl
              && t in MovedIn(s, [t], name).incl
  {
    SelectionAsReadHasNoElements(s.excl, selectedRows);
    var m := MovedIn(s, [], name);
    InOrderSpec(s.order, Elements([]) + Elements(s.incl));
    InOrderSpec(s.order, Elements([t]) + Elements(s.incl));
    RemoveNothing(s.excl);
    CleanFromShrinks(m.incl, m.invalidIncludes, m.invalidExcludes, m.order, name);
    if t in s.order && t !in s.incl {
      var r := CleanInvalid(m, enforceExclusion, name);
      assert multiset(m.incl)[t] == 0;
      assert multiset(r.incl)[t] == 0;
    }
  }

  // ----- addType and removeType -----

  /** A non-empty set of priorities has a member to pick. */
  lemma HasMember(keys: set<int>)
    requires keys != {}
    ensures exists k :: k in keys
  {
    if forall k :: k !in keys {
      assert false;
    }
  }

  /** Every non-empty set of priorities has a largest and a smallest member. */
  lemma {:induction false} ExtremesExist(keys: set<int>)
    requires keys != {}
    ensures exists r :: r in keys && forall j :: j in keys ==> j <= r
    ensures exists r :: r in keys && forall j :: j in keys ==> r <= j
    decreases keys
  {
    HasMember(keys);
    var k :| k in keys;
    var others := keys - {k};
    if others == {} {
      forall j | j in keys
        ensures j == k
      {
        assert j !in others;
      }
    } else {
      ExtremesExist(others);
      var hi :| hi in others && forall j :: j in others ==> j <= hi;
      var lo :| lo in others && forall j :: j in others ==> lo <= j;
      var top := if k <= hi then hi else k;
      var bottom := if lo <= k then lo else k;
      forall j | j in keys
        ensures bottom <= j <= top
      {
        if j != k {
          assert j in others;
        }
      }
      assert top in keys && bottom in keys;
    }
  }

  /** The largest of a non-empty set of priorities: `TreeMap.lastKey`. */
  ghost function Largest(keys: set<int>): (r: int)
    requires keys != {}
    ensures r in keys && forall j :: j in keys ==> j <= r
  {
    ExtremesExist(keys);
    var r :| r in keys && forall j :: j in keys ==> j <= r;
    r
  }

  /** The smallest of a non-empty set of priorities. */
  ghost function Smallest(keys: set<int>): (r: int)
    requires keys != {}
    ensures r in keys && forall j :: j in keys ==> r <= j
  {
    ExtremesExist(keys);
    var r :| r in keys && forall j :: j in keys ==> r <= j;
    r
  }

  /** The priority `addType` stores a type at: the one asked for if free, else one above the largest. */
  ghost function FreePriority(priorities: map<int, string>, priority: int): int
  {
    if priority in priorities then Largest(priorities.Keys) + 1 else priority
  }

  /** The priority map after `addType`. */
  ghost function TypeAdded(priorities: map<int, string>, actionCommand: string, priority: int): map<int, string>
  {
    priorities[FreePriority(priorities, priority) := actionCommand]
  }

  /** The lowest priority holding `actionCommand`, the first entry `removeType` meets walking the
      `TreeMap` in ascending order; none when no entry holds it. */
  ghost function LowestPriorityOf(priorities: map<int, string>, actionCommand: string): Option<int>
  {
    var keys := set k | k in priorities && priorities[k] == actionCommand;
    if keys == {} then None else Some(Smallest(keys))
  }

  /** The priority map after `removeType`. */
  ghost function TypeRemoved(priorities: map<int, string>, actionCommand: string): map<int, string>
  {
    match LowestPriorityOf(priorities, actionCommand)
    case None => priorities
    case Some(k) => priorities - {k}
  }

  /** `addType` keeps a free priority and otherwise takes one above every priority in use, so no type
      already registered is overwritten. */
  lemma FreePrioritySpec(priorities: map<int, string>, priority: int)
    ensures FreePriority(priorities, priority) !in priorities
    ensures priority !in priorities ==> FreePriority(priorities, priority) == priority
    ensures priority in priorities ==> forall k :: k in priorities ==> k < FreePriority(priorities, priority)
  {
  }

  /** `removeType` finds an entry exactly when the type is registered, and it finds the one with the
      lowest priority. */
  lemma LowestPrioritySpec(priorities: map<int, string>, actionCommand: string)
    ensures LowestPriorityOf(priorities, actionCommand).None? <==> actionCommand !in priorities.Values
    ensures match LowestPriorityOf(priorities, actionCommand)
            case None => true
            case Some(k) =>
              && k in priorities && priorities[k] == actionCommand
              && forall j :: j in priorities && priorities[j] == actionCommand ==> k <= j
  {
    var keys := set k | k in priorities && priorities[k] == actionCommand;
    if actionCommand in priorities.Values {
      assert exists k :: k in priorities && priorities[k] == actionCommand by {
        if forall k :: k in priorities ==> priorities[k] != actionCommand {
          assert false;
        }
      }
      var k :| k in priorities && priorities[k] == actionCommand;
      assert k in keys;
      forall j | j in priorities && priorities[j] == actionCommand
        ensures Smallest(keys) <= j
      {
        assert j in keys;
      }
    } else {
      assert forall k :: k !in keys;
      assert keys == {};
    }
  }

  /** Removing a type just added, and registered nowhere else, gives back the priorities as they were. */
  lemma AddThenRemoveType(priorities: map<int, string>, actionCommand: string, priority: int)
    requires actionCommand !in priorities.Values
    ensures TypeRemoved(TypeAdded(priorities, actionCommand, priority), actionCommand) == priorities
  {
    var p := FreePriority(priorities, priority);
    var added := TypeAdded(priorities, actionCommand, priority);
    var keys := set k | k in added && added[k] == actionCommand;
    assert p in keys;
    assert keys == {p};
    assert added - {p} == priorities;
  }

  /** `TreeMap.lastKey`. */
  method LastKey(priorities: map<int, string>) returns (last: int)
    requires priorities != map[]
    ensures last == Largest(priorities.Keys)
  {
    assert priorities.Keys != {} by {
      assert priorities.Keys == {} ==> priorities == map[];
    }
    HasMember(priorities.Keys);
    var first :| first in priorities.Keys;
    last := first;
    var rest := priorities.Keys - {first};
    while rest != {}
      invariant rest <= priorities.Keys
      invariant last in priorities.Keys
      invariant forall k :: k in priorities.Keys && k !in rest ==> k <= last
      decreases rest
    {
      HasMember(rest);
      var k :| k in rest;
      if k > last {
        last := k;
      }
      rest := rest - {k};
    }
  }

  /** The loop of `removeType` over the entries in ascending order, up to the first one holding
      `actionCommand`. */
  method FirstEntryOf(priorities: map<int, string>, actionCommand: string) returns (found: Option<int>)
    ensures found == LowestPriorityOf(priorities, actionCommand)
  {
    found := None;
    var rest := priorities.Keys;
    while rest != {}
      invariant rest <= priorities.Keys
      invariant found.None? ==> forall k :: k in priorities && k !in rest ==> priorities[k] != actionCommand
      invariant found.Some? ==> found.value in priorities && found.value !in rest &&
                                priorities[found.value] == actionCommand &&
                                forall k :: k in priorities && k !in rest && priorities[k] == actionCommand ==> found.value <= k
      decreases rest
    {
      HasMember(rest);
      var k :| k in rest;
      if priorities[k] == actionCommand && (found.None? || k < found.value) {
        found := Some(k);
      }
      rest := rest - {k};
    }
    var keys := set k | k in priorities && priorities[k] == actionCommand;
    if found.Some? {
      assert found.value in keys;
    } else {
      assert forall k :: k !in keys;
      assert keys == {};
    }
  }

  // ----- the panel -----

  /** The settings of the panel beside its lists. */
  datatype Settings = Settings(
    typePriorities: map<int, string>,  // the filter types by priority, a `TreeMap`
    currentType: string,               // the selected filter type
    enforceExclusion: bool,            // whether "Enforce exclusion" is selected
    availableNames: seq<string>)       // the names last given to `update`

  /** The list state of a name filter panel, changed in place by its buttons. */
  class NameFilterPanel<T(==)> {
    const inclMdl: MyTableModel<T>
    const exclMdl: MyTableModel<T>
    var order: seq<T>
    var hidden: set<T>
    var invalidIncludes: seq<string>
    var invalidExcludes: seq<string>
    var typePriorities: map<int, string>
    var currentType: string
    var enforceExclusion: bool
    var availableNames: seq<string>
    const getTforName: string -> T
    const getNameForT: T -> string
    const filter: Option<T -> bool>
    const defaultType: string      // `NameFilterConfiguration.TYPE`

    /** The include and exclude tables are two separate models. */
    predicate Valid()
      reads this
    {
      inclMdl != exclMdl
    }

    /** The lists as a value. */
    function State(): Lists<T>
      reads this, inclMdl, exclMdl
    {
      Lists(order, inclMdl.data, exclMdl.data, hidden, invalidIncludes, invalidExcludes)
    }

    /** The settings as a value. */
    function Config(): Settings
      reads this
    {
      Settings(typePriorities, currentType, enforceExclusion, availableNames)
    }

    /** A new panel: both lists empty, exclusion enforced unless only the selection lists are shown, and
        the default type registered at priority 0 and selected. */
    constructor (showSelectionListsOnly: bool, filter: Option<T -> bool>, getTforName: string -> T,
                 getNameForT: T -> string, defaultType: string)
      ensures Valid() && fresh(inclMdl) && fresh(exclMdl)
      ensures State() == Lists([], [], [], {}, [], [])
      ensures Config() == Settings(map[0 := defaultType], defaultType, !showSelectionListsOnly, [])
      ensures this.getTforName == getTforName && this.getNameForT == getNameForT && this.filter == filter
      ensures this.defaultType == defaultType
    {
      inclMdl := new MyTableModel();
      exclMdl := new MyTableModel();
      order := [];
      hidden := {};
      invalidIncludes := [];
      invalidExcludes := [];
      typePriorities := map[0 := defaultType];
      currentType := defaultType;
      enforceExclusion := !showSelectionListsOnly;
      availableNames := [];
      this.getTforName := getTforName;
      this.getNameForT := getNameForT;
      this.filter := filter;
      this.defaultType := defaultType;
    }

    /** `update`: rebuilds the lists from the invalid names and the available names, as `Updated` says. */
    method Update(ins: seq<string>, exs: seq<string>, names: seq<string>)
      requires Valid()
      modifies this, inclMdl, exclMdl
      ensures Valid()
      ensures State() == Updated(old(State()), ins, exs, names, getTforName, filter)
      ensures Config() == old(Config()).(availableNames := names)
    {
      availableNames := names;
      inclMdl.Clear();
      exclMdl.Clear();
      hidden := {};
      var invalidIn, ord := AddInvalid(invalidIncludes, []);
      var invalidEx, ord' := AddInvalid(invalidExcludes, ord);
      var included, excluded, ord'' := AddAvailable(ins, exs, names, ord');
      AddAllNewConcat([], invalidIn, invalidEx);
      AddAllNewConcat([], invalidIn + invalidEx, MapSeq(AcceptedNames(names, getTforName, filter), getTforName));
      order := ord'';
      inclMdl.AddAll(invalidIn + included);
      exclMdl.AddAll(invalidEx + excluded);
    }

    /** The loop of `update` over the invalid names of one list: their elements, in order, each also
        added to the order. */
    method AddInvalid(invalidNames: seq<string>, ord: seq<T>) returns (rows: seq<T>, ordAfter: seq<T>)
      ensures rows == MapSeq(invalidNames, getTforName)
      ensures ordAfter == AddAllNew(ord, rows)
    {
      rows := [];
      ordAfter := ord;
      for i := 0 to |invalidNames|
        invariant rows == MapSeq(invalidNames[..i], getTforName)
        invariant ordAfter == AddAllNew(ord, rows)
      {
        var t := getTforName(invalidNames[i]);
        assert invalidNames[..i + 1] == invalidNames[..i] + [invalidNames[i]];
        MapSeqConcat(invalidNames[..i], [invalidNames[i]], getTforName);
        AddAllNewSnoc(ord, rows, t);
        rows := rows + [t];
        ordAfter := AddNew(ordAfter, t);
      }
      assert invalidNames[..|invalidNames|] == invalidNames;
    }

    /** The loop of `update` over the available names: the filter's rejects are skipped; every other
        element goes to the include rows when its name is in `ins`, else to the exclude rows when in
        `exs`, and to the order in any case. */
    method AddAvailable(ins: seq<string>, exs: seq<string>, names: seq<string>, ord: seq<T>)
      returns (included: seq<T>, excluded: seq<T>, ordAfter: seq<T>)
      ensures included == MapSeq(IncludedNames(names, ins, getTforName, filter), getTforName)
      ensures excluded == MapSeq(ExcludedNames(names, ins, exs, getTforName, filter), getTforName)
      ensures ordAfter == AddAllNew(ord, MapSeq(AcceptedNames(names, getTforName, filter), getTforName))
    {
      included, excluded, ordAfter := [], [], ord;
      for k := 0 to |names|
        invariant ordAfter == AddAllNew(ord, MapSeq(AcceptedNames(names[..k], getTforName, filter), getTforName))
        invariant included == MapSeq(IncludedNames(names[..k], ins, getTforName, filter), getTforName)
        invariant excluded == MapSeq(ExcludedNames(names[..k], ins, exs, getTforName, filter), getTforName)
      {
        var name := names[k];
        var t := getTforName(name);
        assert names[..k + 1] == names[..k] + [name];
        UpdatedElementsSnoc(names[..k], name, ins, exs, getTforName, filter);
        if filter.Some? && !filter.value(t) {
          continue;
        }
        if name in ins {
          included := included + [t];
        } else if name in exs {
          excluded := excluded + [t];
        }
        AddAllNewSnoc(ord, MapSeq(AcceptedNames(names[..k], getTforName, filter), getTforName), t);
        ordAfter := AddNew(ordAfter, t);
      }
      assert names[..|names|] == names;
    }

    /** `getIncludeList`, reading each row's element: the valid elements of the include list. */
    method GetIncludeList() returns (list: seq<T>)
      ensures list == ValidElements(State(), inclMdl.data, getNameForT)
    {
      list := [];
      var i := 0;
      while i < inclMdl.GetRowCount()
        invariant 0 <= i <= |inclMdl.data|
        invariant list == ValidElements(State(), inclMdl.data[..i], getNameForT)
      {
        var t := inclMdl.GetElementAt(i);
        assert inclMdl.data[..i + 1] == inclMdl.data[..i] + [t];
        ValidElementsSnoc(State(), inclMdl.data[..i], t, getNameForT);
        if !IsInvalid(State(), getNameForT(t)) {
          list := AddNew(list, t);
        }
        i := i + 1;
      }
      assert inclMdl.data[..i] == inclMdl.data;
    }

    /** `getExcludeList`: the valid elements of the exclude list. */
    method GetExcludeList() returns (list: seq<T>)
      ensures list == ValidElements(State(), exclMdl.data, getNameForT)
    {
      list := [];
      var i := 0;
      while i < exclMdl.GetSize()
        invariant 0 <= i <= |exclMdl.data|
        invariant list == ValidElements(State(), exclMdl.data[..i], getNameForT)
      {
        var t := exclMdl.GetElementAt(i);
        assert exclMdl.data[..i + 1] == exclMdl.data[..i] + [t];
        ValidElementsSnoc(State(), exclMdl.data[..i], t, getNameForT);
        if !IsInvalid(State(), getNameForT(t)) {
          list := AddNew(list, t);
        }
        i := i + 1;
      }
      assert exclMdl.data[..i] == exclMdl.data;
    }

    /** `hideNames`: each name leaves the include list, or else the exclude list, and becomes hidden. */
    method HideNames(names: seq<T>)
      requires Valid()
      modifies this, inclMdl, exclMdl
      ensures Valid()
      ensures State() == Hidden(old(State()), names)
      ensures Config() == old(Config())
    {
      for i := 0 to |names|
        invariant State() == Hidden(old(State()), names[..i])
        invariant Config() == old(Config())
      {
        var t := names[i];
        assert names[..i + 1][..i] == names[..i];
        var inIncl := inclMdl.Contains(t);
        var inExcl := exclMdl.Contains(t);
        if inIncl {
          hidden := hidden + {t};
          var _ := inclMdl.Remove(t);
        } else if inExcl {
          hidden := hidden + {t};
          var _ := exclMdl.Remove(t);
        }
      }
      assert names[..|names|] == names;
    }

    /** `resetHiding`: the hidden elements return to the exclude list, in the order's order. */
    method ResetHiding()
      requires Valid()
      modifies this, exclMdl
      ensures Valid()
      ensures State() == ResetHidden(old(State()))
      ensures Config() == old(Config())
    {
      if hidden == {} {
        return;
      }
      var hash := hidden;
      for i := 0 to exclMdl.GetSize()
        modifies {}
        invariant hash == hidden + Elements(exclMdl.data[..i])
      {
        assert Elements(exclMdl.data[..i + 1]) == Elements(exclMdl.data[..i]) + {exclMdl.data[i]} by {
          assert exclMdl.data[..i + 1] == exclMdl.data[..i] + [exclMdl.data[i]];
        }
        hash := hash + {exclMdl.GetElementAt(i)};
      }
      assert exclMdl.data[..|exclMdl.data|] == exclMdl.data;
      exclMdl.Clear();
      var k := 0;
      while k < |order|
        modifies exclMdl
        invariant 0 <= k <= |order|
        invariant exclMdl.data == InOrder(order[..k], hash)
      {
        var t := order[k];
        assert order[..k + 1] == order[..k] + [t];
        InOrderSnoc(order[..k], t, hash);
        if t in hash {
          exclMdl.AddRow(t);
        }
        k := k + 1;
      }
      assert order[..k] == order;
      hidden := {};
    }

    /** `onRemIt`: the selected elements move from the include list to the exclude list, invalid names
        follow them, and the invalid names are cleaned up (the table model's `removeAll` always reports
        a change). */
    method OnRemIt(selected: seq<T>)
      requires Valid()
      modifies this, inclMdl, exclMdl
      ensures Valid()
      ensures State() == CleanInvalid(MovedOut(old(State()), selected, getNameForT), old(enforceExclusion), getNameForT)
      ensures Config() == old(Config())
    {
      var hash := Elements(selected);
      for i := 0 to exclMdl.GetSize()
        modifies {}
        invariant hash == Elements(selected) + Elements(exclMdl.data[..i])
      {
        assert Elements(exclMdl.data[..i + 1]) == Elements(exclMdl.data[..i]) + {exclMdl.data[i]} by {
          assert exclMdl.data[..i + 1] == exclMdl.data[..i] + [exclMdl.data[i]];
        }
        hash := hash + {exclMdl.GetElementAt(i)};
      }
      assert exclMdl.data[..|exclMdl.data|] == exclMdl.data;
      var changed := inclMdl.RemoveAll(selected);
      exclMdl.Clear();
      var tmp: seq<T> := [];
      var ins := invalidIncludes;
      var exs := invalidExcludes;
      var elements := order;
      for k := 0 to |elements|
        modifies {}
        invariant tmp == InOrder(elements[..k], hash)
        invariant (ins, exs) == Transfer(elements[..k], hash, old(invalidIncludes), old(invalidExcludes), getNameForT)
      {
        var c := elements[k];
        assert elements[..k + 1] == elements[..k] + [c];
        InOrderSnoc(elements[..k], c, hash);
        TransferSnoc(elements[..k], c, hash, old(invalidIncludes), old(invalidExcludes), getNameForT);
        if c in hash {
          tmp := tmp + [c];
          var name := getNameForT(c);
          if name in ins {
            ins := RemoveFirst(ins, name);
            exs := exs + [name];
          }
        }
      }
      assert elements[..|elements|] == elements;
      invalidIncludes := ins;
      invalidExcludes := exs;
      exclMdl.AddAll(tmp);
      assert [] + tmp == tmp;
      assert State() == MovedOut(old(State()), selected, getNameForT);
      if changed {
        CleanInvalidValues();
      }
    }

    /** `onAddIt`: the mirror image of `onRemIt`. */
    method OnAddIt(selected: seq<T>)
      requires Valid()
      modifies this, inclMdl, exclMdl
      ensures Valid()
      ensures State() == CleanInvalid(MovedIn(old(State()), selected, getNameForT), old(enforceExclusion), getNameForT)
      ensures Config() == old(Config())
    {
      var hash := Elements(selected);
      for i := 0 to inclMdl.GetSize()
        modifies {}
        invariant hash == Elements(selected) + Elements(inclMdl.data[..i])
      {
        assert Elements(inclMdl.data[..i + 1]) == Elements(inclMdl.data[..i]) + {inclMdl.data[i]} by {
          assert inclMdl.data[..i + 1] == inclMdl.data[..i] + [inclMdl.data[i]];
        }
        hash := hash + {inclMdl.GetElementAt(i)};
      }
      assert inclMdl.data[..|inclMdl.data|] == inclMdl.data;
      var changed := exclMdl.RemoveAll(selected);
      inclMdl.Clear();
      var tmp: seq<T> := [];
      var exs := invalidExcludes;
      var ins := invalidIncludes;
      var elements := order;
      for k := 0 to |elements|
        modifies {}
        invariant tmp == InOrder(elements[..k], hash)
        invariant (exs, ins) == Transfer(elements[..k], hash, old(invalidExcludes), old(invalidIncludes), getNameForT)
      {
        var c := elements[k];
        assert elements[..k + 1] == elements[..k] + [c];
        InOrderSnoc(elements[..k], c, hash);
        TransferSnoc(elements[..k], c, hash, old(invalidExcludes), old(invalidIncludes), getNameForT);
        if c in hash {
          tmp := tmp + [c];
          var name := getNameForT(c);
          if name in exs {
            exs := RemoveFirst(exs, name);
            ins := ins + [name];
          }
        }
      }
      assert elements[..|elements|] == elements;
      invalidExcludes := exs;
      invalidIncludes := ins;
      inclMdl.AddAll(tmp);
      assert [] + tmp == tmp;
      assert Mirror(State()) == MovedOut(Mirror(old(State())), selected, getNameForT);
      if changed {
        CleanInvalidValues();
      }
    }

    /** `onRemAll`: every visible element is excluded, and the invalid names are cleaned up when the
        include list was not empty. */
    method OnRemAll()
      requires Valid()
      modifies this, inclMdl, exclMdl
      ensures Valid()
      ensures State() == if old(inclMdl.data) == [] then AllMovedOut(old(State()))
                         else CleanInvalid(AllMovedOut(old(State())), old(enforceExclusion), getNameForT)
      ensures Config() == old(Config())
    {
      var changed := !inclMdl.IsEmpty();
      inclMdl.Clear();
      exclMdl.Clear();
      invalidExcludes := invalidExcludes + invalidIncludes;
      invalidIncludes := [];
      var tmp: seq<T> := [];
      var elements, hiddenSet := order, hidden;
      for k := 0 to |elements|
        modifies {}
        invariant tmp == Visible(elements[..k], hiddenSet)
      {
        var c := elements[k];
        assert elements[..k + 1] == elements[..k] + [c];
        VisibleSnoc(elements[..k], c, hiddenSet);
        if c !in hiddenSet {
          tmp := tmp + [c];
        }
      }
      assert elements[..|elements|] == elements;
      exclMdl.AddAll(tmp);
      assert [] + tmp == tmp;
      assert State() == AllMovedOut(old(State()));
      if changed {
        CleanInvalidValues();
      }
    }

    /** `onAddAll`: the mirror image of `onRemAll`. */
    method OnAddAll()
      requires Valid()
      modifies this, inclMdl, exclMdl
      ensures Valid()
      ensures State() == if old(exclMdl.data) == [] then AllMovedIn(old(State()))
                         else CleanInvalid(AllMovedIn(old(State())), old(enforceExclusion), getNameForT)
      ensures Config() == old(Config())
    {
      var changed := !exclMdl.IsEmpty();
      inclMdl.Clear();
      exclMdl.Clear();
      invalidIncludes := invalidIncludes + invalidExcludes;
      invalidExcludes := [];
      var tmp: seq<T> := [];
      var elements, hiddenSet := order, hidden;
      for k := 0 to |elements|
        modifies {}
        invariant tmp == Visible(elements[..k], hiddenSet)
      {
        var c := elements[k];
        assert elements[..k + 1] == elements[..k] + [c];
        VisibleSnoc(elements[..k], c, hiddenSet);
        if c !in hiddenSet {
          tmp := tmp + [c];
        }
      }
      assert elements[..|elements|] == elements;
      inclMdl.AddAll(tmp);
      assert [] + tmp == tmp;
      assert Mirror(State()) == AllMovedOut(Mirror(old(State())));
      if changed {
        CleanInvalidValues();
      }
    }

    /** `cleanInvalidValues`: the list whose content is enforced loses its rows with invalid names. */
    method CleanInvalidValues()
      requires Valid()
      modifies this, inclMdl, exclMdl
      ensures Valid()
      ensures State() == CleanInvalid(old(State()), enforceExclusion, getNameForT)
      ensures Config() == old(Config())
    {
      if enforceExclusion {
        var own, ord := CleanModel(inclMdl, invalidIncludes, invalidExcludes, order);
        invalidIncludes := own;
        order := ord;
      } else {
        var own, ord := CleanModel(exclMdl, invalidExcludes, invalidIncludes, order);
        invalidExcludes := own;
        order := ord;
      }
    }

    /** The loop of `cleanInvalidValues` over one table, dropping the row at the current index when its
        name is invalid (in `own`, the table's own invalid names, or in `other`). */
    method CleanModel(mdl: MyTableModel<T>, own: seq<string>, other: seq<string>, order: seq<T>)
      returns (ownAfter: seq<string>, orderAfter: seq<T>)
      modifies mdl
      ensures (mdl.data, ownAfter, orderAfter) == CleanFrom(old(mdl.data), own, other, order, getNameForT)
    {
      ownAfter := own;
      orderAfter := order;
      var i := 0;
      ghost var goal := CleanFrom(mdl.data, own, other, order, getNameForT);
      assert mdl.data[0..] == mdl.data && [] + goal.0 == goal.0;
      while i < mdl.GetSize()
        invariant 0 <= i <= |mdl.data|
        invariant forall t :: t in mdl.data[..i] ==> getNameForT(t) !in ownAfter && getNameForT(t) !in other
        invariant goal.0 == mdl.data[..i] + CleanFrom(mdl.data[i..], ownAfter, other, orderAfter, getNameForT).0
        invariant goal.1 == CleanFrom(mdl.data[i..], ownAfter, other, orderAfter, getNameForT).1
        invariant goal.2 == CleanFrom(mdl.data[i..], ownAfter, other, orderAfter, getNameForT).2
        decreases |mdl.data| - i
      {
        var e := mdl.GetElementAt(i);
        var name := getNameForT(e);
        ghost var before := mdl.data;
        CleanFromStep(before, i, ownAfter, other, orderAfter, getNameForT);
        if name in ownAfter || name in other {
          assert e !in before[..i];
          RemoveFirstMembers(ownAfter, name);
          ownAfter := RemoveFirst(ownAfter, name);
          orderAfter := Erase(orderAfter, e);
          RemoveFirstAt(before, e, i);
          var _ := mdl.Remove(e);
          assert mdl.data[..i] == before[..i] && mdl.data[i..] == before[i + 1..];
        } else {
          assert before[..i + 1] == before[..i] + [e];
          i := i + 1;
        }
      }
      assert mdl.data[i..] == [] && mdl.data[..i] + [] == mdl.data;
    }

    /** `addType`: the type is registered at the priority asked for, or above all others when that one is
        taken. */
    method AddType(actionCommand: string, priority: int)
      modifies this
      ensures typePriorities == TypeAdded(old(typePriorities), actionCommand, priority)
      ensures Config() == old(Config()).(typePriorities := typePriorities)
      ensures unchanged(this`order, this`hidden, this`invalidIncludes, this`invalidExcludes)
    {
      var correctPriority := priority;
      if priority in typePriorities {
        var last := LastKey(typePriorities);
        correctPriority := last + 1;
      }
      typePriorities := typePriorities[correctPriority := actionCommand];
    }

    /** `removeType`: the lowest-priority entry of the type is dropped, and the current type falls back to
        the default when it was the type removed. */
    method RemoveType(actionCommand: string)
      modifies this
      ensures typePriorities == TypeRemoved(old(typePriorities), actionCommand)
      ensures currentType == if old(currentType) == actionCommand then defaultType else old(currentType)
      ensures enforceExclusion == old(enforceExclusion) && availableNames == old(availableNames)
      ensures unchanged(this`order, this`hidden, this`invalidIncludes, this`invalidExcludes)
    {
      var found := FirstEntryOf(typePriorities, actionCommand);
      if found.Some? {
        typePriorities := typePriorities - {found.value};
      }
      if currentType == actionCommand {
        currentType := defaultType;
      }
    }
  }
}
