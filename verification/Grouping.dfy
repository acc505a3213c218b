/** The order of a module's items in the reference. A type is followed by what is called on it; owners
    that are no listed type come after all types; free functions, constants and externs are listed apart. */
module Grouping {
  import opened Counting
  import opened Wrappers

  datatype Kind = Struct | Enum | Bitstruct | Fn | ExternFn | BuiltInFn | Const | OtherKind(name: string)

  /** An item of a module; `id` stands for everything else recorded of it. */
  datatype Item = Item(kind: Kind, name: string, id: nat)

  // ------------------------------------------------------------------ names and roles

  predicate Scoped(name: string) {
    name != "" && ("::" <= name || Scoped(name[1..]))
  }

  /** What stands before the first "::". */
  function Owner(name: string): string {
    if name == "" || "::" <= name then "" else [name[0]] + Owner(name[1..])
  }

  datatype Role = TypeRole | AssocRole(owner: string) | FreeRole | ConstRole | ExternRole | NoRole

  function RoleOf(x: Item): Role {
    match x.kind
    case Struct => TypeRole
    case Enum => TypeRole
    case Bitstruct => TypeRole
    case Fn => if Scoped(x.name) then AssocRole(Owner(x.name)) else FreeRole
    case BuiltInFn => if Scoped(x.name) then AssocRole(Owner(x.name)) else FreeRole
    case ExternFn => if Scoped(x.name) then AssocRole(Owner(x.name)) else ExternRole
    case Const => ConstRole
    case OtherKind(_) => NoRole
  }

  /** The items with a role, in the order of the source. */
  function With(items: seq<Item>, role: Role): seq<Item> {
    if items == [] then []
    else With(items[..|items| - 1], role) + if RoleOf(items[|items| - 1]) == role then [items[|items| - 1]] else []
  }

  // ------------------------------------------------------------------ the dictionary, in the order of insertion

  type Groups = seq<(string, seq<Item>)>

  function GroupOf(d: Groups, key: string): seq<Item> {
    if d == [] then [] else if d[0].0 == key then d[0].1 else GroupOf(d[1..], key)
  }

  predicate HasKey(d: Groups, key: string) {
    exists k :: 0 <= k < |d| && d[k].0 == key
  }

  ghost predicate KeysDiffer(d: Groups) {
    forall j, k :: 0 <= j < k < |d| ==> d[j].0 != d[k].0
  }

  /** `setdefault(key, []).append(x)` */
  function Added(d: Groups, key: string, x: Item): Groups {
    if d == [] then [(key, [x])]
    else if d[0].0 == key then [(key, d[0].1 + [x])] + d[1..]
    else [d[0]] + Added(d[1..], key, x)
  }

  function Without(d: Groups, key: string): Groups {
    if d == [] then [] else if d[0].0 == key then d[1..] else [d[0]] + Without(d[1..], key)
  }

  lemma {:induction false} AddedGroups(d: Groups, key: string, x: Item, other: string)
    ensures GroupOf(Added(d, key, x), other) == GroupOf(d, other) + if key == other then [x] else []
    ensures HasKey(Added(d, key, x), other) <==> HasKey(d, other) || key == other
  {
    var e := Added(d, key, x);
    if d == [] {
      assert e[0].0 == key;
    } else {
      AddedGroups(d[1..], key, x, other);
      HasKeyStep(d, other);
      HasKeyStep(e, other);
      if d[0].0 == key { assert e[1..] == d[1..]; } else { assert e[1..] == Added(d[1..], key, x); }
    }
  }

  lemma HasKeyStep(d: Groups, key: string)
    requires d != []
    ensures HasKey(d, key) <==> d[0].0 == key || HasKey(d[1..], key)
  {
    if HasKey(d[1..], key) {
      var k :| 0 <= k < |d[1..]| && d[1..][k].0 == key;
      assert d[k + 1].0 == key;
    }
    if HasKey(d, key) && d[0].0 != key {
      var k :| 0 <= k < |d| && d[k].0 == key;
      assert d[1..][k - 1].0 == key;
    }
  }

  lemma {:induction false} AddedKeysDiffer(d: Groups, key: string, x: Item)
    requires KeysDiffer(d)
    ensures KeysDiffer(Added(d, key, x))
  {
    if d != [] && d[0].0 != key {
      AddedKeysDiffer(d[1..], key, x);
      var e := Added(d[1..], key, x);
      forall k | 0 <= k < |e| ensures e[k].0 != d[0].0 {
        AddedGroups(d[1..], key, x, d[0].0);
        assert !HasKey(d[1..], d[0].0);
        assert HasKey(e, e[k].0);
      }
    }
  }

  lemma KeysStillDiffer(g: (string, seq<Item>), rest: Groups)
    requires KeysDiffer(rest) && !HasKey(rest, g.0)
    ensures KeysDiffer([g] + rest)
  {
    var e := [g] + rest;
    forall k | 0 < k < |e| ensures e[k].0 != g.0 {
      assert e[k] == rest[k - 1] && HasKey(rest, e[k].0);
    }
  }

  lemma {:induction false} WithoutKey(d: Groups, key: string, other: string)
    requires KeysDiffer(d)
    ensures KeysDiffer(Without(d, key))
    ensures HasKey(Without(d, key), other) <==> HasKey(d, other) && other != key
    ensures GroupOf(Without(d, key), other) == if key == other then [] else GroupOf(d, other)
  {
    if d != [] {
      HasKeyStep(d, other);
      var e := Without(d, key);
      if d[0].0 == key {
        NoGroupWithoutKey(d[1..], key);
        assert !HasKey(d[1..], key);
      } else {
        WithoutKey(d[1..], key, other);
        WithoutKey(d[1..], key, d[0].0);
        HasKeyStep(e, other);
        assert e[1..] == Without(d[1..], key);
        assert !HasKey(d[1..], d[0].0);
        KeysStillDiffer(d[0], e[1..]);
      }
    }
  }

  lemma {:induction false} NoGroupWithoutKey(d: Groups, key: string)
    ensures !HasKey(d, key) ==> GroupOf(d, key) == []
  {
    if d != [] {
      HasKeyStep(d, key);
      NoGroupWithoutKey(d[1..], key);
    }
  }

  /** The dictionary after all the items. */
  function Gathered(items: seq<Item>): Groups {
    if items == [] then []
    else
      var d, x := Gathered(items[..|items| - 1]), items[|items| - 1];
      if RoleOf(x).AssocRole? then Added(d, RoleOf(x).owner, x) else d
  }

  /** Each owner's group holds its functions, in order, and only owners with functions have one. */
  lemma {:induction false} GatheredGroups(items: seq<Item>, owner: string)
    ensures GroupOf(Gathered(items), owner) == With(items, AssocRole(owner))
    ensures KeysDiffer(Gathered(items))
    ensures HasKey(Gathered(items), owner) <==> With(items, AssocRole(owner)) != []
  {
    if items != [] {
      var d, x := Gathered(items[..|items| - 1]), items[|items| - 1];
      GatheredGroups(items[..|items| - 1], owner);
      if RoleOf(x).AssocRole? {
        AddedGroups(d, RoleOf(x).owner, x, owner);
        AddedKeysDiffer(d, RoleOf(x).owner, x);
      }
    }
  }

  // ------------------------------------------------------------------ the entries

  /** A type, or none, and the functions shown under it. */
  type Entry = (Option<Item>, seq<Item>)

  function Leftover(d: Groups): (es: seq<Entry>)
    ensures |es| == |d|
  {
    if d == [] then [] else [(None, d[0].1)] + Leftover(d[1..])
  }

  /** Each type takes its group out of the dictionary; what no type took comes after them. */
  function Entries(types: seq<Item>, d: Groups): (es: seq<Entry>)
    ensures |types| <= |es|
  {
    if types == [] then Leftover(d)
    else [(Some(types[0]), GroupOf(d, types[0].name))] + Entries(types[1..], Without(d, types[0].name))
  }

  predicate Named(types: seq<Item>, name: string) {
    exists k :: 0 <= k < |types| && types[k].name == name
  }

  lemma {:induction false} LeftoverAt(d: Groups, k: nat)
    requires KeysDiffer(d) && k < |d|
    ensures |Leftover(d)| == |d| && Leftover(d)[k] == (None, GroupOf(d, d[k].0))
  {
    if k > 0 {
      LeftoverAt(d[1..], k - 1);
      assert d[0].0 != d[k].0;
    } else if |d| > 1 {
      LeftoverAt(d[1..], 0);
    }
  }

  /** The groups left when the types have taken theirs. */
  function Untaken(types: seq<Item>, d: Groups): Groups {
    if types == [] then d else Untaken(types[1..], Without(d, types[0].name))
  }

  lemma {:induction false} UntakenGroups(types: seq<Item>, d: Groups, owner: string)
    requires KeysDiffer(d)
    ensures KeysDiffer(Untaken(types, d))
    ensures HasKey(Untaken(types, d), owner) <==> HasKey(d, owner) && !Named(types, owner)
    ensures GroupOf(Untaken(types, d), owner) == if Named(types, owner) then [] else GroupOf(d, owner)
  {
    if types != [] {
      var name := types[0].name;
      WithoutKey(d, name, owner);
      UntakenGroups(types[1..], Without(d, name), owner);
      NamedStep(types, owner);
    }
  }

  lemma NamedStep(types: seq<Item>, name: string)
    requires types != []
    ensures Named(types, name) <==> types[0].name == name || Named(types[1..], name)
  {
    if Named(types[1..], name) {
      var k :| 0 <= k < |types[1..]| && types[1..][k].name == name;
      assert types[k + 1].name == name;
    }
    if Named(types, name) && types[0].name != name {
      var k :| 0 <= k < |types| && types[k].name == name;
      assert types[1..][k - 1].name == name;
    }
  }

  lemma {:induction false} EntriesAreTypesThenLeftover(types: seq<Item>, d: Groups)
    ensures |Entries(types, d)| == |types| + |Leftover(Untaken(types, d))|
    ensures Entries(types, d)[|types|..] == Leftover(Untaken(types, d))
  {
    if types != [] {
      EntriesAreTypesThenLeftover(types[1..], Without(d, types[0].name));
    }
  }

  lemma {:induction false} EntryOfType(types: seq<Item>, d: Groups, k: nat)
    requires KeysDiffer(d) && k < |types|
    ensures k < |Entries(types, d)|
    ensures Entries(types, d)[k] ==
            (Some(types[k]), if Named(types[..k], types[k].name) then [] else GroupOf(d, types[k].name))
  {
    if k > 0 {
      var name := types[0].name;
      WithoutKey(d, name, types[k].name);
      EntryOfType(types[1..], Without(d, name), k - 1);
      assert types[1..][..k - 1] == types[..k][1..];
      NamedStep(types[..k], types[k].name);
    }
  }

  /** The first type of a name has under it all functions it owns, in the order of the source; a second of the same name
      has none. */
  lemma FunctionsUnderTheirType(items: seq<Item>, k: nat)
    requires k < |With(items, TypeRole)|
    ensures var types, es := With(items, TypeRole), Entries(With(items, TypeRole), Gathered(items));
            k < |es| && es[k] == (Some(types[k]), if Named(types[..k], types[k].name) then [] else
                                                    With(items, AssocRole(types[k].name)))
  {
    var types := With(items, TypeRole);
    GatheredGroups(items, types[k].name);
    EntryOfType(types, Gathered(items), k);
  }

  /** After the types come the functions whose owner is no type of the module, owner by owner, each owner once. */
  lemma OthersAfterThem(items: seq<Item>)
    ensures var types, d := With(items, TypeRole), Untaken(With(items, TypeRole), Gathered(items));
            && KeysDiffer(d)
            && Entries(types, Gathered(items))[|types|..] == Leftover(d)
            && (forall k :: 0 <= k < |d| ==> Leftover(d)[k] == (None, With(items, AssocRole(d[k].0))))
            && (forall owner :: HasKey(d, owner) <==> With(items, AssocRole(owner)) != [] && !Named(types, owner))
  {
    var types, g := With(items, TypeRole), Gathered(items);
    var d := Untaken(types, g);
    GatheredGroups(items, "");
    UntakenGroups(types, g, "");
    EntriesAreTypesThenLeftover(types, g);
    forall owner ensures HasKey(d, owner) <==> With(items, AssocRole(owner)) != [] && !Named(types, owner) {
      GatheredGroups(items, owner);
      UntakenGroups(types, g, owner);
    }
    forall k | 0 <= k < |d| ensures |Leftover(d)| == |d| && Leftover(d)[k] == (None, With(items, AssocRole(d[k].0))) {
      LeftoverAt(d, k);
      GatheredGroups(items, d[k].0);
      UntakenGroups(types, g, d[k].0);
      assert HasKey(d, d[k].0);
    }
  }

  // ------------------------------------------------------------------ in the order of first appearance

  function Keys(d: Groups): seq<string> {
    if d == [] then [] else [d[0].0] + Keys(d[1..])
  }

  /** The owners of functions, as they first appear. */
  function Owners(items: seq<Item>): seq<string> {
    if items == [] then []
    else
      var ks, role := Owners(items[..|items| - 1]), RoleOf(items[|items| - 1]);
      if role.AssocRole? && role.owner !in ks then ks + [role.owner] else ks
  }

  /** Those of them that are no type. */
  function Unnamed(types: seq<Item>, ks: seq<string>): seq<string> {
    if ks == [] then [] else (if Named(types, ks[0]) then [] else [ks[0]]) + Unnamed(types, ks[1..])
  }

  lemma {:induction false} KeysAfterAdding(d: Groups, key: string, x: Item)
    ensures Keys(Added(d, key, x)) == if key in Keys(d) then Keys(d) else Keys(d) + [key]
  {
    if d != [] && d[0].0 != key {
      KeysAfterAdding(d[1..], key, x);
      assert Keys(d) == [d[0].0] + Keys(d[1..]);
    }
  }

  lemma {:induction false} KeysAreOwners(items: seq<Item>)
    ensures Keys(Gathered(items)) == Owners(items)
  {
    if items != [] {
      var d, x := Gathered(items[..|items| - 1]), items[|items| - 1];
      KeysAreOwners(items[..|items| - 1]);
      if RoleOf(x).AssocRole? { KeysAfterAdding(d, RoleOf(x).owner, x); }
    }
  }

  lemma {:induction false} UnnamedOfNone(ks: seq<string>)
    ensures Unnamed([], ks) == ks
  {
    if ks != [] { UnnamedOfNone(ks[1..]); }
  }

  lemma {:induction false} KeysAfterTaking(types: seq<Item>, d: Groups)
    requires types != [] && KeysDiffer(d)
    ensures Unnamed(types[1..], Keys(Without(d, types[0].name))) == Unnamed(types, Keys(d))
  {
    if d != [] {
      NamedStep(types, d[0].0);
      if d[0].0 == types[0].name {
        SameWithoutIt(types, d[1..]);
      } else {
        KeysAfterTaking(types, d[1..]);
      }
    }
  }

  lemma {:induction false} SameWithoutIt(types: seq<Item>, d: Groups)
    requires types != [] && !HasKey(d, types[0].name)
    ensures Unnamed(types[1..], Keys(d)) == Unnamed(types, Keys(d))
  {
    if d != [] {
      HasKeyStep(d, types[0].name);
      NamedStep(types, d[0].0);
      SameWithoutIt(types, d[1..]);
    }
  }

  lemma {:induction false} KeysOfUntaken(types: seq<Item>, d: Groups)
    requires KeysDiffer(d)
    ensures Keys(Untaken(types, d)) == Unnamed(types, Keys(d))
  {
    if types == [] {
      UnnamedOfNone(Keys(d));
    } else {
      WithoutKey(d, types[0].name, "");
      KeysAfterTaking(types, d);
      KeysOfUntaken(types[1..], Without(d, types[0].name));
    }
  }

  /** The groups under no type come in the order in which their owners first appear in the source. */
  lemma OthersInOrder(items: seq<Item>)
    ensures Keys(Untaken(With(items, TypeRole), Gathered(items))) == Unnamed(With(items, TypeRole), Owners(items))
  {
    GatheredGroups(items, "");
    KeysAreOwners(items);
    KeysOfUntaken(With(items, TypeRole), Gathered(items));
  }

  // ------------------------------------------------------------------ every item once

  function Times(s: seq<Item>, x: Item): nat {
    if s == [] then 0 else Times(s[..|s| - 1], x) + if s[|s| - 1] == x then 1 else 0
  }

  function Shown(es: seq<Entry>): seq<Item> {
    if es == [] then []
    else (if es[0].0.Some? then [es[0].0.value] else []) + es[0].1 + Shown(es[1..])
  }

  function InGroups(d: Groups): seq<Item> {
    if d == [] then [] else d[0].1 + InGroups(d[1..])
  }

  lemma {:induction false} TimesAppend(a: seq<Item>, b: seq<Item>, x: Item)
    ensures Times(a + b, x) == Times(a, x) + Times(b, x)
  {
    if b == [] {
      assert a + b == a;
    } else {
      assert (a + b)[..|a + b| - 1] == a + b[..|b| - 1];
      TimesAppend(a, b[..|b| - 1], x);
    }
  }

  lemma {:induction false} TimesAdded(d: Groups, key: string, y: Item, x: Item)
    ensures Times(InGroups(Added(d, key, y)), x) == Times(InGroups(d), x) + if y == x then 1 else 0
  {
    var e := Added(d, key, y);
    TimesAppend([], [y], x);
    if d == [] {
      assert InGroups(e) == [y] + InGroups([]);
      assert [y] + [] == [y];
    } else if d[0].0 == key {
      assert e[1..] == d[1..];
      TimesAppend(d[0].1, InGroups(d[1..]), x);
      TimesAppend(d[0].1 + [y], InGroups(d[1..]), x);
      TimesAppend(d[0].1, [y], x);
    } else {
      assert e[1..] == Added(d[1..], key, y);
      TimesAdded(d[1..], key, y, x);
      TimesAppend(d[0].1, InGroups(d[1..]), x);
      TimesAppend(d[0].1, InGroups(e[1..]), x);
    }
  }

  lemma {:induction false} TimesWithout(d: Groups, key: string, x: Item)
    ensures Times(InGroups(d), x) == Times(GroupOf(d, key), x) + Times(InGroups(Without(d, key)), x)
  {
    if d != [] {
      var e := Without(d, key);
      TimesAppend(d[0].1, InGroups(d[1..]), x);
      if d[0].0 != key {
        assert e[1..] == Without(d[1..], key);
        TimesWithout(d[1..], key, x);
        TimesAppend(d[0].1, InGroups(e[1..]), x);
      }
    }
  }

  lemma {:induction false} ShownLeftover(d: Groups)
    ensures Shown(Leftover(d)) == InGroups(d)
  {
    if d != [] { ShownLeftover(d[1..]); }
  }

  lemma {:induction false} TimesShown(types: seq<Item>, d: Groups, x: Item)
    ensures Times(Shown(Entries(types, d)), x) == Times(types, x) + Times(InGroups(d), x)
  {
    if types == [] {
      ShownLeftover(d);
    } else {
      var t, fs, more := types[0], GroupOf(d, types[0].name), Entries(types[1..], Without(d, types[0].name));
      TimesShown(types[1..], Without(d, t.name), x);
      TimesWithout(d, t.name, x);
      assert types == [t] + types[1..];
      TimesAppend([t], types[1..], x);
      TimesAppend([t] + fs, Shown(more), x);
      TimesAppend([t], fs, x);
    }
  }

  lemma {:induction false} TimesGathered(items: seq<Item>, x: Item)
    ensures Times(InGroups(Gathered(items)), x) == if RoleOf(x).AssocRole? then Times(items, x) else 0
  {
    if items != [] {
      var d, y := Gathered(items[..|items| - 1]), items[|items| - 1];
      TimesGathered(items[..|items| - 1], x);
      if RoleOf(y).AssocRole? { TimesAdded(d, RoleOf(y).owner, y, x); }
    }
  }

  lemma {:induction false} TimesWith(items: seq<Item>, role: Role, x: Item)
    ensures Times(With(items, role), x) == if RoleOf(x) == role then Times(items, x) else 0
  {
    if items != [] {
      var front, y := items[..|items| - 1], items[|items| - 1];
      TimesWith(front, role, x);
      var w := With(items, role);
      if RoleOf(y) == role {
        assert w[..|w| - 1] == With(front, role) && w[|w| - 1] == y;
      } else {
        assert w == With(front, role);
      }
    }
  }

  /** Every item of a known kind is shown as often as it is listed, in one place only; others are not shown. */
  lemma EveryItemOnce(items: seq<Item>, x: Item)
    ensures var es := Entries(With(items, TypeRole), Gathered(items));
            && Times(Shown(es), x) == (if RoleOf(x).TypeRole? || RoleOf(x).AssocRole? then Times(items, x) else 0)
            && Times(Shown(es), x) + Times(With(items, FreeRole), x) + Times(With(items, ConstRole), x)
               + Times(With(items, ExternRole), x)
               == (if RoleOf(x).NoRole? then 0 else Times(items, x))
  {
    TimesShown(With(items, TypeRole), Gathered(items), x);
    TimesGathered(items, x);
    TimesWith(items, TypeRole, x);
    TimesWith(items, FreeRole, x);
    TimesWith(items, ConstRole, x);
    TimesWith(items, ExternRole, x);
  }

  // ------------------------------------------------------------------ the arrangement, in names and kinds alone

  predicate IsType(x: Item) { x.kind in {Struct, Enum, Bitstruct} }

  ghost predicate HasScope(name: string) {
    exists k :: 0 <= k <= |name| && "::" <= name[k..]
  }

  /** The owner, the first "::" of the name, and the rest. */
  ghost predicate BelongsTo(name: string, owner: string) {
    owner + "::" <= name && forall k :: 0 <= k < |owner| ==> !("::" <= name[k..])
  }

  ghost predicate CalledOn(x: Item, owner: string) {
    x.kind in {Fn, ExternFn, BuiltInFn} && BelongsTo(x.name, owner)
  }

  ghost predicate CalledAlone(x: Item, kinds: set<Kind>) {
    x.kind in kinds && !HasScope(x.name)
  }

  ghost predicate KeptAt(items: seq<Item>, chosen: seq<Item>, p: Item -> bool, i: nat) {
    i < |items| && p(items[i]) ==> Count(items[..i], p) < |chosen| && chosen[Count(items[..i], p)] == items[i]
  }

  /** `chosen` is the items that satisfy p, in the order of the source. */
  ghost predicate Keeps(items: seq<Item>, chosen: seq<Item>, p: Item -> bool) {
    |chosen| == Count(items, p) && forall i: nat :: KeptAt(items, chosen, p, i)
  }

  /** Type k, and under it what is called on it, unless an earlier type of the same name has taken that. */
  ghost predicate UnderType(items: seq<Item>, types: seq<Item>, k: nat, e: Entry)
    requires k < |types|
  {
    && e.0 == Some(types[k])
    && if exists j :: 0 <= j < k && types[j].name == types[k].name then e.1 == []
       else Keeps(items, e.1, x => CalledOn(x, types[k].name))
  }

  ghost predicate UnderNone(items: seq<Item>, owner: string, e: Entry) {
    e.0 == None && Keeps(items, e.1, x => CalledOn(x, owner))
  }

  ghost predicate Seen(items: seq<Item>, owner: string) {
    exists i :: 0 <= i < |items| && CalledOn(items[i], owner)
  }

  /** Something is called on the owner, and no type has its name. */
  ghost predicate LeftOver(items: seq<Item>, types: seq<Item>, owner: string) {
    Seen(items, owner) && forall k :: 0 <= k < |types| ==> types[k].name != owner
  }

  ghost predicate SeenBefore(items: seq<Item>, first: string, second: string) {
    forall i :: 0 <= i < |items| && CalledOn(items[i], second) ==> exists j :: 0 <= j < i && CalledOn(items[j], first)
  }

  ghost predicate EachSeenBefore(items: seq<Item>, owners: seq<string>) {
    forall j, k :: 0 <= j < k < |owners| ==> owners[j] != owners[k] && SeenBefore(items, owners[j], owners[k])
  }

  /** The types in the order of the source with what is called on each, and then the owners left over, each once, in the
      order in which they are first seen. */
  ghost predicate Arranged(items: seq<Item>, types: seq<Item>, owners: seq<string>, out: seq<Entry>) {
    && Keeps(items, types, x => IsType(x))
    && |out| == |types| + |owners|
    && (forall k :: 0 <= k < |types| ==> UnderType(items, types, k, out[k]))
    && (forall k :: 0 <= k < |owners| ==> UnderNone(items, owners[k], out[|types| + k]))
    && (forall owner :: owner in owners <==> LeftOver(items, types, owner))
    && EachSeenBefore(items, owners)
  }

  // ------------------------------------------------------------------ roles are what the names and kinds say

  lemma {:induction false} ScopedIff(name: string)
    ensures Scoped(name) <==> HasScope(name)
  {
    if name != "" {
      ScopedIff(name[1..]);
      assert name[0..] == name;
      if k :| 0 <= k <= |name| && "::" <= name[k..] {
        assert k > 0 ==> name[1..][k - 1..] == name[k..];
      }
      if k :| 0 <= k <= |name[1..]| && "::" <= name[1..][k..] {
        assert name[1..][k..] == name[k + 1..];
      }
    }
  }

  lemma {:induction false} OwnerIs(name: string)
    requires Scoped(name)
    ensures BelongsTo(name, Owner(name))
  {
    if !("::" <= name) {
      OwnerIs(name[1..]);
      var owner := Owner(name);
      assert owner[1..] == Owner(name[1..]);
      assert owner + "::" == [name[0]] + (Owner(name[1..]) + "::");
      assert name == [name[0]] + name[1..];
      forall k | 0 <= k < |owner| ensures !("::" <= name[k..]) {
        assert k > 0 ==> name[1..][k - 1..] == name[k..];
        assert name[0..] == name;
      }
    }
  }

  lemma OneOwner(name: string, a: string, b: string)
    requires BelongsTo(name, a) && BelongsTo(name, b)
    ensures a == b
  {
    assert name[|a|..][..2] == "::" && name[|b|..][..2] == "::";
    assert "::" <= name[|a|..] && "::" <= name[|b|..];
    assert a == name[..|a|] && b == name[..|b|];
  }

  lemma BelongsIff(name: string, owner: string)
    ensures BelongsTo(name, owner) <==> Scoped(name) && Owner(name) == owner
  {
    ScopedIff(name);
    if BelongsTo(name, owner) {
      assert name[|owner|..][..2] == "::";
      assert "::" <= name[|owner|..];
    }
    if Scoped(name) {
      OwnerIs(name);
      if BelongsTo(name, owner) { OneOwner(name, owner, Owner(name)); }
    }
  }

  lemma CalledOnIff(x: Item, owner: string)
    ensures CalledOn(x, owner) <==> RoleOf(x) == AssocRole(owner)
  {
    BelongsIff(x.name, owner);
  }

  lemma AloneIff(x: Item)
    ensures RoleOf(x) == FreeRole <==> CalledAlone(x, {Fn, BuiltInFn})
    ensures RoleOf(x) == ExternRole <==> CalledAlone(x, {ExternFn})
    ensures RoleOf(x) == TypeRole <==> IsType(x)
    ensures RoleOf(x) == ConstRole <==> x.kind == Const
  {
    ScopedIff(x.name);
  }

  lemma {:induction false} WithKeeps(items: seq<Item>, role: Role, p: Item -> bool)
    requires forall x :: p(x) <==> RoleOf(x) == role
    ensures Keeps(items, With(items, role), p)
  {
    if items != [] {
      var n: nat, front, last := |items| - 1, items[..|items| - 1], items[|items| - 1];
      WithKeeps(front, role, p);
      CountAppend(front, [last], p);
      assert items == front + [last];
      forall i: nat ensures KeptAt(items, With(items, role), p, i) {
        assert KeptAt(front, With(front, role), p, i);
        assert i < n ==> items[..i] == front[..i];
        assert items[..n] == front;
      }
    }
  }

  lemma CallsAreKept(items: seq<Item>, owner: string)
    ensures Keeps(items, With(items, AssocRole(owner)), x => CalledOn(x, owner))
  {
    forall x ensures CalledOn(x, owner) <==> RoleOf(x) == AssocRole(owner) { CalledOnIff(x, owner); }
    WithKeeps(items, AssocRole(owner), x => CalledOn(x, owner));
  }

  lemma OthersAreKept(items: seq<Item>)
    ensures Keeps(items, With(items, TypeRole), x => IsType(x))
    ensures Keeps(items, With(items, FreeRole), x => CalledAlone(x, {Fn, BuiltInFn}))
    ensures Keeps(items, With(items, ExternRole), x => CalledAlone(x, {ExternFn}))
    ensures Keeps(items, With(items, ConstRole), (x: Item) => x.kind == Const)
  {
    forall x
      ensures RoleOf(x) == FreeRole <==> CalledAlone(x, {Fn, BuiltInFn})
      ensures RoleOf(x) == ExternRole <==> CalledAlone(x, {ExternFn})
      ensures RoleOf(x) == TypeRole <==> IsType(x)
      ensures RoleOf(x) == ConstRole <==> x.kind == Const
    {
      AloneIff(x);
    }
    WithKeeps(items, TypeRole, x => IsType(x));
    WithKeeps(items, FreeRole, x => CalledAlone(x, {Fn, BuiltInFn}));
    WithKeeps(items, ExternRole, x => CalledAlone(x, {ExternFn}));
    WithKeeps(items, ConstRole, (x: Item) => x.kind == Const);
  }

  // ------------------------------------------------------------------ the owners left over

  lemma SeenStep(front: seq<Item>, last: Item, owner: string)
    ensures Seen(front + [last], owner) <==> Seen(front, owner) || CalledOn(last, owner)
  {
    var items := front + [last];
    if i :| 0 <= i < |front| && CalledOn(front[i], owner) { assert CalledOn(items[i], owner); }
    if i :| 0 <= i < |items| && CalledOn(items[i], owner) { assert i < |front| ==> CalledOn(front[i], owner); }
    if CalledOn(last, owner) { assert CalledOn(items[|front|], owner); }
  }

  lemma SeenBeforeStays(front: seq<Item>, last: Item, first: string, second: string)
    requires Seen(front, first) && SeenBefore(front, first, second)
    ensures SeenBefore(front + [last], first, second)
  {
    var items := front + [last];
    forall i | 0 <= i < |items| && CalledOn(items[i], second)
      ensures exists j :: 0 <= j < i && CalledOn(items[j], first)
    {
      if i < |front| {
        assert CalledOn(front[i], second);
        var j :| 0 <= j < i && CalledOn(front[j], first);
        assert CalledOn(items[j], first);
      } else {
        var j :| 0 <= j < |front| && CalledOn(front[j], first);
        assert CalledOn(items[j], first);
      }
    }
  }

  lemma NotSeenBefore(items: seq<Item>, first: string, second: string)
    requires !Seen(items, second)
    ensures SeenBefore(items, first, second)
  {
  }

  lemma {:induction false} OwnersSeen(items: seq<Item>)
    ensures forall o :: o in Owners(items) <==> Seen(items, o)
    ensures EachSeenBefore(items, Owners(items))
  {
    if items != [] {
      var front, last := items[..|items| - 1], items[|items| - 1];
      assert items == front + [last];
      OwnersSeen(front);
      forall o ensures CalledOn(last, o) <==> RoleOf(last) == AssocRole(o) { CalledOnIff(last, o); }
      forall o ensures o in Owners(items) <==> Seen(items, o) { SeenStep(front, last, o); }
      var before, ks := Owners(front), Owners(items);
      forall j, k | 0 <= j < k < |ks| ensures ks[j] != ks[k] && SeenBefore(items, ks[j], ks[k]) {
        assert ks[j] == before[j] && before[j] in before;
        if k == |before| { NotSeenBefore(front, ks[j], ks[k]); } else { assert ks[k] == before[k]; }
        SeenBeforeStays(front, last, ks[j], ks[k]);
      }
    }
  }

  lemma {:induction false} UnnamedAre(types: seq<Item>, ks: seq<string>)
    ensures forall o :: o in Unnamed(types, ks) <==> o in ks && !Named(types, o)
  {
    if ks != [] { UnnamedAre(types, ks[1..]); }
  }

  lemma {:induction false} UnnamedInOrder(items: seq<Item>, types: seq<Item>, ks: seq<string>)
    requires EachSeenBefore(items, ks)
    ensures EachSeenBefore(items, Unnamed(types, ks))
  {
    if ks != [] {
      UnnamedInOrder(items, types, ks[1..]);
      UnnamedAre(types, ks[1..]);
      var rest := Unnamed(types, ks[1..]);
      forall k | 0 <= k < |rest| ensures ks[0] != rest[k] && SeenBefore(items, ks[0], rest[k]) {
        assert rest[k] in ks[1..];
      }
      InFront(items, ks[0], rest);
    }
  }

  lemma InFront(items: seq<Item>, owner: string, rest: seq<string>)
    requires EachSeenBefore(items, rest)
    requires forall k :: 0 <= k < |rest| ==> owner != rest[k] && SeenBefore(items, owner, rest[k])
    ensures EachSeenBefore(items, [owner] + rest)
  {
    var all := [owner] + rest;
    forall j, k | 0 <= j < k < |all| ensures all[j] != all[k] && SeenBefore(items, all[j], all[k]) {
      assert all[k] == rest[k - 1] && (if j == 0 then all[j] == owner else all[j] == rest[j - 1]);
    }
  }

  lemma OwnersLeftOver(items: seq<Item>, types: seq<Item>)
    ensures var os := Unnamed(types, Owners(items));
            (forall o :: o in os <==> LeftOver(items, types, o)) && EachSeenBefore(items, os)
  {
    OwnersSeen(items);
    UnnamedAre(types, Owners(items));
    UnnamedInOrder(items, types, Owners(items));
  }

  lemma {:induction false} KeysAt(d: Groups, k: nat)
    requires k < |d|
    ensures |Keys(d)| == |d| && Keys(d)[k] == d[k].0
  {
    if k > 0 {
      KeysAt(d[1..], k - 1);
    } else if |d| > 1 {
      KeysAt(d[1..], 0);
    }
  }

  /** What the loops make of the items is the arrangement. */
  lemma EntriesAreArranged(items: seq<Item>)
    ensures Arranged(items, With(items, TypeRole), Unnamed(With(items, TypeRole), Owners(items)),
                     Entries(With(items, TypeRole), Gathered(items)))
  {
    var types := With(items, TypeRole);
    var owners, out := Unnamed(types, Owners(items)), Entries(types, Gathered(items));
    var d := Untaken(types, Gathered(items));
    OthersAreKept(items);
    OwnersLeftOver(items, types);
    OthersAfterThem(items);
    OthersInOrder(items);
    if d != [] { KeysAt(d, 0); }
    EntriesAreTypesThenLeftover(types, Gathered(items));
    forall k | 0 <= k < |types| ensures UnderType(items, types, k, out[k]) {
      FunctionsUnderTheirType(items, k);
      CallsAreKept(items, types[k].name);
      NamedBefore(types, k);
    }
    forall k | 0 <= k < |owners| ensures UnderNone(items, owners[k], out[|types| + k]) {
      KeysAt(d, k);
      assert out[|types|..][k] == out[|types| + k];
      CallsAreKept(items, owners[k]);
    }
  }

  lemma NamedBefore(types: seq<Item>, k: nat)
    requires k < |types|
    ensures Named(types[..k], types[k].name) <==> exists j :: 0 <= j < k && types[j].name == types[k].name
  {
    if j :| 0 <= j < k && types[j].name == types[k].name { assert types[..k][j].name == types[k].name; }
    if j :| 0 <= j < |types[..k]| && types[..k][j].name == types[k].name { assert types[j].name == types[k].name; }
  }

  // ------------------------------------------------------------------ the function

  method Select(items: seq<Item>, role: Role) returns (chosen: seq<Item>)
    ensures chosen == With(items, role)
  {
    chosen := [];
    for i := 0 to |items|
      invariant chosen == With(items[..i], role)
    {
      assert items[..i + 1][..i] == items[..i];
      if RoleOf(items[i]) == role { chosen := chosen + [items[i]]; }
    }
    assert items[..|items|] == items;
  }

  lemma EntriesNext(out: seq<Entry>, types: seq<Item>, assoc: Groups, k: nat)
    requires k < |types|
    ensures out + Entries(types[k..], assoc)
         == out + [(Some(types[k]), GroupOf(assoc, types[k].name))]
            + Entries(types[k + 1..], Without(assoc, types[k].name))
  {
    assert types[k..][0] == types[k] && types[k..][1..] == types[k + 1..];
  }

  lemma LeftoverNext(out: seq<Entry>, assoc: Groups, k: nat)
    requires k < |assoc|
    ensures out + Leftover(assoc[k..]) == out + [(None, assoc[k].1)] + Leftover(assoc[k + 1..])
  {
    assert assoc[k..][0] == assoc[k] && assoc[k..][1..] == assoc[k + 1..];
  }

  method Order(items: seq<Item>)
    returns (out: seq<Entry>, free: seq<Item>, consts: seq<Item>, externs: seq<Item>)
    ensures out == Entries(With(items, TypeRole), Gathered(items))
    ensures exists types, owners :: Arranged(items, types, owners, out)
    ensures Keeps(items, free, x => CalledAlone(x, {Fn, BuiltInFn}))
    ensures Keeps(items, consts, (x: Item) => x.kind == Const)
    ensures Keeps(items, externs, x => CalledAlone(x, {ExternFn}))
    ensures free == With(items, FreeRole) && consts == With(items, ConstRole) && externs == With(items, ExternRole)
  {
    var types := Select(items, TypeRole);
    var assoc: Groups := [];
    for i := 0 to |items|
      invariant assoc == Gathered(items[..i])
    {
      assert items[..i + 1][..i] == items[..i];
      var role := RoleOf(items[i]);
      if role.AssocRole? { assoc := Added(assoc, role.owner, items[i]); }
    }
    assert items[..|items|] == items;
    out := [];
    ghost var all := Entries(types, assoc);
    for k := 0 to |types|
      invariant out + Entries(types[k..], assoc) == all
    {
      EntriesNext(out, types, assoc, k);
      out := out + [(Some(types[k]), GroupOf(assoc, types[k].name))];
      assoc := Without(assoc, types[k].name);
    }
    for k := 0 to |assoc|
      invariant out + Leftover(assoc[k..]) == all
    {
      LeftoverNext(out, assoc, k);
      out := out + [(None, assoc[k].1)];
    }
    free := Select(items, FreeRole);
    consts := Select(items, ConstRole);
    externs := Select(items, ExternRole);
    OthersAreKept(items);
    EntriesAreArranged(items);
  }
}
