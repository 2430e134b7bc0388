/**
  * `collectAllProperties` of scripts/generateTypes.ts: the properties of an interface and of
  * everything it extends, bases first, over a table of interfaces that may be cyclic.
  */
module Inheritance {
  import opened Common

  datatype Property = Property(name: string, typeName: string, optional: bool)

  datatype Interface = Interface(name: string, properties: seq<Property>, bases: seq<string>)

  /** Interfaces by name, as registered: each under its own name. */
  type Table = map<string, Interface>

  predicate Registered(table: Table) { forall n <- table :: table[n].name == n }

  /** What follows the last dot of a qualified name. */
  function StripNamespace(typeName: string): (r: string)
    ensures '.' !in r
    decreases |typeName|
  {
    if typeName == "" || typeName[|typeName| - 1] == '.' then ""
    else StripNamespace(typeName[..|typeName| - 1]) + [typeName[|typeName| - 1]]
  }

  /** It is the end of the name, without a dot and right behind one, or the whole name. */
  lemma {:induction false} StrippedIsLastPart(typeName: string)
    ensures var r := StripNamespace(typeName);
            && '.' !in r && |r| <= |typeName| && typeName[|typeName| - |r|..] == r
            && (|r| < |typeName| ==> typeName[|typeName| - |r| - 1] == '.')
    decreases |typeName|
  {
    if typeName != "" && typeName[|typeName| - 1] != '.' {
      StrippedIsLastPart(typeName[..|typeName| - 1]);
    }
  }

  // ---------- reachability through `extends` ----------

  /** The interface itself, then the table: the name of the root is never looked up again. */
  function Lookup(table: Table, root: Interface, name: string): Option<Interface> {
    if name == root.name then Some(root) else if name in table then Some(table[name]) else None
  }

  /** Both are known, and `from` lists `name`, perhaps qualified, as a base. */
  ghost predicate Extends(table: Table, root: Interface, from: string, name: string) {
    && Lookup(table, root, from).Some?
    && Lookup(table, root, name).Some?
    && exists b :: b in Lookup(table, root, from).value.bases && StripNamespace(b) == name
  }

  /** `path` leads from the root to `name` by steps from an interface to one of its bases. */
  ghost predicate Leads(table: Table, root: Interface, path: seq<string>, name: string)
    decreases |path|
  {
    if path == [] then name == root.name
    else
      && Leads(table, root, path[..|path| - 1], path[|path| - 1])
      && Extends(table, root, path[|path| - 1], name)
  }

  ghost predicate Reachable(table: Table, root: Interface, name: string) {
    exists path :: Leads(table, root, path, name)
  }

  /** `names` has every base of `name` that the table knows. */
  ghost predicate BasesIn(table: Table, root: Interface, name: string, names: set<string>) {
    forall base :: Extends(table, root, name, base) ==> base in names
  }

  lemma {:induction false} ClosedContainsReachable(table: Table, root: Interface, path: seq<string>, name: string,
                                                   names: set<string>)
    requires Leads(table, root, path, name)
    requires root.name in names && forall n <- names :: BasesIn(table, root, n, names)
    ensures name in names
    decreases |path|
  {
    if path != [] {
      ClosedContainsReachable(table, root, path[..|path| - 1], path[|path| - 1], names);
    }
  }

  lemma {:induction false} BaseIsReachable(table: Table, root: Interface, from: string, name: string)
    requires Reachable(table, root, from) && Extends(table, root, from, name)
    ensures Reachable(table, root, name)
  {
    var path :| Leads(table, root, path, from);
    var longer := path + [from];
    assert longer[..|longer| - 1] == path;
    assert Leads(table, root, longer, name);
  }

  // ---------- the collector ----------

  function Names(props: seq<Property>): set<string> { set p <- props :: p.name }

  /** The properties whose names are neither among `seen` nor repeated, in order. */
  function NewProperties(props: seq<Property>, seen: set<string>): seq<Property> {
    if props == [] then []
    else
      var init, last := NewProperties(props[..|props| - 1], seen), props[|props| - 1];
      if last.name in seen + Names(init) then init else init + [last]
  }

  lemma {:induction false} NewPropertiesNames(props: seq<Property>, seen: set<string>)
    ensures seen + Names(NewProperties(props, seen)) == seen + Names(props)
  {
    if props != [] {
      var init, last := props[..|props| - 1], props[|props| - 1];
      NewPropertiesNames(init, seen);
      assert props == init + [last];
      assert Names(props) == Names(init) + {last.name};
      var added := NewProperties(init, seen);
      assert Names(added + [last]) == Names(added) + {last.name};
    }
  }

  lemma {:induction false} NewPropertiesStep(props: seq<Property>, i: nat, seen: set<string>)
    requires i < |props|
    ensures Names(props[..i + 1]) == Names(props[..i]) + {props[i].name}
    ensures NewProperties(props[..i + 1], seen) ==
            NewProperties(props[..i], seen) + if props[i].name in seen + Names(props[..i]) then [] else [props[i]]
  {
    NewPropertiesNames(props[..i], seen);
    assert props[..i + 1][..i] == props[..i];
    assert props[..i + 1] == props[..i] + [props[i]];
  }

  ghost predicate Distinct(props: seq<Property>) {
    forall i, j :: 0 <= i < j < |props| ==> props[i].name != props[j].name
  }

  ghost predicate Declares(table: Table, root: Interface, n: string, p: Property) {
    Lookup(table, root, n).Some? && p in Lookup(table, root, n).value.properties
  }

  ghost predicate DeclaredByReachable(table: Table, root: Interface, p: Property) {
    exists n :: Reachable(table, root, n) && Declares(table, root, n, p)
  }

  /** The state that the inner function shares with its caller. */
  class Collector {
    const table: Table
    const root: Interface
    var allProps: seq<Property>
    var fieldsSeen: set<string>
    var visited: set<string>

    /** Every property collected so far was declared by an interface visited so far. */
    ghost predicate Valid()
      reads this
    {
      && Registered(table)
      && Distinct(allProps) && fieldsSeen == Names(allProps)
      && (forall p <- allProps :: DeclaredIn(p, visited))
      && (forall n <- visited :: Lookup(table, root, n).Some? && Reachable(table, root, n))
    }

    ghost predicate DeclaredIn(p: Property, names: set<string>) {
      exists n :: n in names && Declares(table, root, n, p)
    }

    /** All names an interface of this table can have. */
    ghost function Universe(): set<string> { table.Keys + {root.name} }

    /** `n` is done: its bases are among `names` and its property names among `fields`. */
    ghost predicate Finished(n: string, names: set<string>, fields: set<string>) {
      && BasesIn(table, root, n, names)
      && (Lookup(table, root, n).Some? ==> Names(Lookup(table, root, n).value.properties) <= fields)
    }

    ghost predicate AllFinished(done: set<string>, names: set<string>, fields: set<string>) {
      forall n <- done :: Finished(n, names, fields)
    }

    lemma {:induction false} StaysFinished(done: set<string>, names: set<string>, fields: set<string>,
                        names': set<string>, fields': set<string>)
      requires AllFinished(done, names, fields) && names <= names' && fields <= fields'
      ensures AllFinished(done, names', fields')
    {
      forall n <- done
        ensures Finished(n, names', fields')
      {
        assert Finished(n, names, fields);
      }
    }

    constructor (table: Table, root: Interface)
      requires Registered(table)
      ensures Valid() && this.table == table && this.root == root
      ensures visited == {} && allProps == []
    {
      this.table, this.root := table, root;
      allProps, fieldsSeen, visited := [], {}, {};
    }

    method AddProperty(prop: Property)
      requires Valid() && DeclaredIn(prop, visited)
      modifies this`allProps, this`fieldsSeen
      ensures Valid() && fieldsSeen == old(fieldsSeen) + {prop.name}
      ensures allProps == old(allProps) + if prop.name in old(fieldsSeen) then [] else [prop]
    {
      if prop.name !in fieldsSeen {
        allProps := allProps + [prop];
        fieldsSeen := fieldsSeen + {prop.name};
      }
    }

    /** The properties of one interface that were not seen before, in order. */
    method AddProperties(current: Interface)
      requires Valid() && current.name in visited && Lookup(table, root, current.name) == Some(current)
      modifies this`allProps, this`fieldsSeen
      ensures Valid() && fieldsSeen == old(fieldsSeen) + Names(current.properties)
      ensures allProps == old(allProps) + NewProperties(current.properties, old(fieldsSeen))
    {
      ghost var props := current.properties;
      for i := 0 to |current.properties|
        invariant Valid()
        invariant fieldsSeen == old(fieldsSeen) + Names(props[..i])
        invariant allProps == old(allProps) + NewProperties(props[..i], old(fieldsSeen))
      {
        NewPropertiesStep(props, i, old(fieldsSeen));
        assert Declares(table, root, current.name, current.properties[i]);
        AddProperty(current.properties[i]);
        AppendAssoc(old(allProps), NewProperties(props[..i], old(fieldsSeen)),
                    if props[i].name in old(fieldsSeen) + Names(props[..i]) then [] else [props[i]]);
      }
      assert props[..|props|] == props;
    }

    /** The bases of `current` before position `i` have been visited. */
    ghost predicate BasesVisited(current: Interface, i: nat)
      reads this
      requires i <= |current.bases|
    {
      forall k :: 0 <= k < i && Lookup(table, root, StripNamespace(current.bases[k])).Some? ==>
        StripNamespace(current.bases[k]) in visited
    }

    lemma {:induction false} AllBasesVisited(current: Interface)
      requires Lookup(table, root, current.name) == Some(current) && BasesVisited(current, |current.bases|)
      ensures BasesIn(table, root, current.name, visited)
    {
    }

    method CollectFromBase(current: Interface) returns (ghost inherited: seq<Property>)
      requires Valid()
      requires if current.name == root.name then root.name in visited || current == root
               else root.name in visited && Lookup(table, root, current.name) == Some(current)
      requires Reachable(table, root, current.name)
      modifies this
      ensures Valid()
      ensures old(visited) <= visited && current.name in visited && old(fieldsSeen) <= fieldsSeen
      ensures AllFinished(visited - old(visited), visited, fieldsSeen)
      ensures current.name in old(visited) ==> inherited == allProps
      ensures current.name !in old(visited) ==>
                && AllFinished(visited - old(visited) - {current.name}, visited, Names(inherited))
                && allProps == inherited + NewProperties(current.properties, Names(inherited))
      decreases Universe() - visited
    {
      if current.name in visited {
        inherited := allProps;
        return;
      }
      visited := visited + {current.name};
      for i := 0 to |current.bases|
        invariant Valid()
        invariant old(visited) + {current.name} <= visited && old(fieldsSeen) <= fieldsSeen
        invariant AllFinished(visited - old(visited) - {current.name}, visited, fieldsSeen)
        invariant BasesVisited(current, i)
      {
        var baseName := StripNamespace(current.bases[i]);
        if baseName in table {
          assert Extends(table, root, current.name, baseName);
          BaseIsReachable(table, root, current.name, baseName);
          ghost var before, fields := visited, fieldsSeen;
          ghost var _ := CollectFromBase(table[baseName]);
          StaysFinished(before - old(visited) - {current.name}, before, fields, visited, fieldsSeen);
          assert visited - old(visited) - {current.name} ==
                 (before - old(visited) - {current.name}) + (visited - before);
        }
      }
      AllBasesVisited(current);
      ghost var fields := fieldsSeen;
      inherited := allProps;
      AddProperties(current);
      StaysFinished(visited - old(visited) - {current.name}, visited, fields, visited, fieldsSeen);
    }
  }

  /**
    * Terminates on any table, cyclic ones included. Each property name is listed once, and
    * the names are exactly those declared by the interfaces reachable from `iface`. Its own
    * properties come last, and only those that no other reachable interface declares.
    */
  method CollectAllProperties(table: Table, iface: Interface) returns (allProps: seq<Property>)
    requires Registered(table)
    ensures Distinct(allProps)
    ensures forall p <- allProps :: DeclaredByReachable(table, iface, p)
    ensures forall p: Property :: DeclaredByReachable(table, iface, p) ==> p.name in Names(allProps)
    ensures exists inherited ::
              && allProps == inherited + NewProperties(iface.properties, Names(inherited))
              && forall n, p :: Reachable(table, iface, n) && n != iface.name && Declares(table, iface, n, p) ==>
                   p.name in Names(inherited)
  {
    var c := new Collector(table, iface);
    assert Leads(table, iface, [], iface.name);
    ghost var inherited := c.CollectFromBase(iface);
    allProps := c.allProps;
    forall m <- c.visited
      ensures BasesIn(table, iface, m, c.visited)
    {
      assert m in c.visited - {};
      assert c.Finished(m, c.visited, c.fieldsSeen);
    }
    forall n, p | Reachable(table, iface, n) && Declares(table, iface, n, p)
      ensures p.name in c.fieldsSeen && (n != iface.name ==> p.name in Names(inherited))
    {
      var path :| Leads(table, iface, path, n);
      ClosedContainsReachable(table, iface, path, n, c.visited);
      assert n in c.visited - {};
      assert c.Finished(n, c.visited, c.fieldsSeen);
      if n != iface.name {
        assert n in c.visited - {} - {iface.name};
        assert c.Finished(n, c.visited, Names(inherited));
      }
    }
  }
}
