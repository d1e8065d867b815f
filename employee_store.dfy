/**
 * The in-memory employee router (employees.js): a module-level list of
 * employees and an id counter, with the list, create (single and bulk),
 * update and delete handlers. The HTTP layer is stripped: each handler takes
 * the parsed body or id and returns a Reply.
 */
module EmployeeStore {

  datatype Employee = Employee(id: int, name: string, department: string)

  /**
   * One object of a POST or PUT body. A missing key and any falsy value are
   * both the empty string.
   */
  datatype Entry = Entry(name: string, department: string)

  /** A POST body is either one object or an array of objects. */
  datatype Body = Single(entry: Entry) | Batch(entries: seq<Entry>)

  /** What a handler answers, in place of the status code and JSON. */
  datatype Reply =
    | Created(employee: Employee)
    | CreatedMany(added: seq<Employee>)
    | Rejected
    | Updated(employee: Employee)
    | Deleted
    | NotFound

  /** `emp.name && emp.department`: the entry can be stored. */
  predicate Complete(e: Entry) {
    e.name != "" && e.department != ""
  }

  /** Ids grow strictly along the list, so no id occurs twice. */
  predicate IdsIncreasing(es: seq<Employee>) {
    forall i, j :: 0 <= i < j < |es| ==> es[i].id < es[j].id
  }

  // ---------------------------------------------------------------------
  // Lookup by id
  // ---------------------------------------------------------------------

  /** `findIndex(e => e.id === id)`: the first position holding `id`, or -1. */
  function Position(es: seq<Employee>, id: int): (r: int)
    ensures -1 <= r < |es|
    ensures r == -1 <==> forall k :: 0 <= k < |es| ==> es[k].id != id
    ensures r >= 0 ==> es[r].id == id && forall k :: 0 <= k < r ==> es[k].id != id
  {
    if es == [] then -1
    else if es[0].id == id then 0
    else
      var p := Position(es[1..], id);
      if p == -1 then -1 else p + 1
  }

  /** The linear search that `find` and `findIndex` perform. */
  method FindIndex(es: seq<Employee>, id: int) returns (index: int)
    ensures index == Position(es, id)
  {
    index := 0;
    while index < |es| && es[index].id != id
      invariant 0 <= index <= |es|
      invariant forall k :: 0 <= k < index ==> es[k].id != id
    {
      index := index + 1;
    }
    if index == |es| {
      index := -1;
    }
  }

  // ---------------------------------------------------------------------
  // Reference definitions of what the handlers do to the list
  // ---------------------------------------------------------------------

  /** The entries of a batch that get stored, in input order. */
  function Admitted(xs: seq<Entry>): (r: seq<Entry>)
    ensures |r| <= |xs|
    ensures forall k :: 0 <= k < |r| ==> Complete(r[k])
  {
    if xs == [] then []
    else (if Complete(xs[0]) then [xs[0]] else []) + Admitted(xs[1..])
  }

  /** Records for `xs` with consecutive ids from `from`. */
  function Numbered(xs: seq<Entry>, from: int): seq<Employee>
    decreases |xs|
  {
    if xs == [] then []
    else [Employee(from, xs[0].name, xs[0].department)] + Numbered(xs[1..], from + 1)
  }

  /** The fallback of an update: a non-empty value replaces the old one, an empty one keeps it. */
  function Patched(e: Employee, name: string, department: string): Employee {
    Employee(e.id, if name != "" then name else e.name, if department != "" then department else e.department)
  }

  /** Every record holding `id` patched, every other record as it was. */
  function PatchAll(es: seq<Employee>, id: int, name: string, department: string): (r: seq<Employee>)
    ensures |r| == |es|
  {
    if es == [] then []
    else [if es[0].id == id then Patched(es[0], name, department) else es[0]] + PatchAll(es[1..], id, name, department)
  }

  /** The list without the records holding `id`. */
  function DropAll(es: seq<Employee>, id: int): (r: seq<Employee>)
    ensures |r| <= |es|
  {
    if es == [] then []
    else (if es[0].id == id then [] else [es[0]]) + DropAll(es[1..], id)
  }

  // ---------------------------------------------------------------------
  // Lemmas about the reference definitions
  // ---------------------------------------------------------------------

  /** Filtering a batch distributes over concatenation. */
  lemma {:induction false} AdmittedConcat(xs: seq<Entry>, ys: seq<Entry>)
    ensures Admitted(xs + ys) == Admitted(xs) + Admitted(ys)
  {
    if xs == [] {
      assert xs + ys == ys;
    } else {
      assert (xs + ys)[1..] == xs[1..] + ys;
      AdmittedConcat(xs[1..], ys);
    }
  }

  /** Growing the prefix of a batch by one entry adds that entry to what is stored exactly when it is complete. */
  lemma {:induction false} AdmittedPrefix(xs: seq<Entry>, i: nat)
    requires i < |xs|
    ensures Admitted(xs[..i + 1]) == Admitted(xs[..i]) + if Complete(xs[i]) then [xs[i]] else []
  {
    AdmittedConcat(xs[..i], [xs[i]]);
    assert xs[..i + 1] == xs[..i] + [xs[i]];
    assert [xs[i]][1..] == [];
  }

  /** A batch whose entries are all complete is stored whole; one with none complete stores nothing. */
  lemma {:induction false} AdmittedExtremes(xs: seq<Entry>)
    ensures (forall k :: 0 <= k < |xs| ==> Complete(xs[k])) ==> Admitted(xs) == xs
    ensures (forall k :: 0 <= k < |xs| ==> !Complete(xs[k])) ==> Admitted(xs) == []
  {
    if xs != [] {
      AdmittedExtremes(xs[1..]);
      assert forall k :: 1 <= k < |xs| ==> xs[k] == xs[1..][k - 1];
      assert [xs[0]] + xs[1..] == xs;
    }
  }

  /** Record k of a numbered batch has id `from + k` and the name and department of entry k. */
  lemma {:induction false} NumberedAt(xs: seq<Entry>, from: int)
    ensures |Numbered(xs, from)| == |xs|
    ensures forall k :: 0 <= k < |xs| ==>
      Numbered(xs, from)[k] == Employee(from + k, xs[k].name, xs[k].department)
    decreases |xs|
  {
    if xs != [] {
      NumberedAt(xs[1..], from + 1);
      assert forall k :: 1 <= k < |xs| ==> xs[k] == xs[1..][k - 1];
    }
  }

  /** Numbering one more entry appends one record with the next id. */
  lemma {:induction false} NumberedSnoc(xs: seq<Entry>, e: Entry, from: int)
    ensures Numbered(xs + [e], from) == Numbered(xs, from) + [Employee(from + |xs|, e.name, e.department)]
  {
    NumberedAt(xs + [e], from);
    NumberedAt(xs, from);
    assert forall k :: 0 <= k < |xs| ==> (xs + [e])[k] == xs[k];
  }

  /**
   * A numbered batch appended behind records whose ids are all below `from`
   * keeps the ids increasing, and all of them below `from + |xs|`.
   */
  lemma {:induction false} AppendNumberedIncreasing(es: seq<Employee>, xs: seq<Entry>, from: int)
    requires IdsIncreasing(es)
    requires forall k :: 0 <= k < |es| ==> es[k].id < from
    ensures IdsIncreasing(es + Numbered(xs, from))
    ensures forall k :: 0 <= k < |es + Numbered(xs, from)| ==> (es + Numbered(xs, from))[k].id < from + |xs|
  {
    NumberedAt(xs, from);
  }

  /** When the record at p is the only one holding `id`, overwriting it in place is the same as patching every record with that id. */
  lemma {:induction false} PatchInPlace(es: seq<Employee>, id: int, p: nat, name: string, department: string)
    requires p < |es| && es[p].id == id
    requires forall k :: 0 <= k < |es| && k != p ==> es[k].id != id
    ensures es[p := Patched(es[p], name, department)] == PatchAll(es, id, name, department)
  {
    PatchAllAt(es, id, name, department);
  }

  /** Record k of PatchAll is record k of the input, patched when it holds `id`. */
  lemma {:induction false} PatchAllAt(es: seq<Employee>, id: int, name: string, department: string)
    ensures forall k :: 0 <= k < |es| ==>
      PatchAll(es, id, name, department)[k] == if es[k].id == id then Patched(es[k], name, department) else es[k]
  {
    if es != [] {
      PatchAllAt(es[1..], id, name, department);
      assert forall k :: 1 <= k < |es| ==> es[k] == es[1..][k - 1];
    }
  }

  /** A patch changes no id, so the ids stay increasing. */
  lemma {:induction false} PatchKeepsIds(es: seq<Employee>, id: int, name: string, department: string)
    ensures forall k :: 0 <= k < |es| ==> PatchAll(es, id, name, department)[k].id == es[k].id
    ensures IdsIncreasing(es) ==> IdsIncreasing(PatchAll(es, id, name, department))
  {
    PatchAllAt(es, id, name, department);
  }

  /** Dropping an id that no record holds leaves the list as it is. */
  lemma {:induction false} DropAbsent(es: seq<Employee>, id: int)
    requires forall k :: 0 <= k < |es| ==> es[k].id != id
    ensures DropAll(es, id) == es
  {
    if es != [] {
      DropAbsent(es[1..], id);
      assert [es[0]] + es[1..] == es;
    }
  }

  /** Dropping an id distributes over concatenation. */
  lemma {:induction false} DropConcat(xs: seq<Employee>, ys: seq<Employee>, id: int)
    ensures DropAll(xs + ys, id) == DropAll(xs, id) + DropAll(ys, id)
  {
    if xs == [] {
      assert xs + ys == ys;
    } else {
      assert (xs + ys)[1..] == xs[1..] + ys;
      DropConcat(xs[1..], ys, id);
    }
  }

  /** With increasing ids, no other record shares the id of the record at p. */
  lemma IncreasingUnique(es: seq<Employee>, p: nat)
    requires IdsIncreasing(es)
    requires p < |es|
    ensures forall k :: 0 <= k < |es| && k != p ==> es[k].id != es[p].id
  {
    forall k | 0 <= k < |es| && k != p
      ensures es[k].id != es[p].id
    {
      if k < p {
        assert es[k].id < es[p].id;
      } else {
        assert es[p].id < es[k].id;
      }
    }
  }

  /** When the record at p is the only one holding `id`, splicing it out is the same as dropping every record with that id. */
  lemma {:induction false} SpliceIsDrop(es: seq<Employee>, id: int, p: nat)
    requires p < |es| && es[p].id == id
    requires forall k :: 0 <= k < |es| && k != p ==> es[k].id != id
    ensures es[..p] + es[p + 1..] == DropAll(es, id)
  {
    var before, after := es[..p], es[p + 1..];
    assert es == before + ([es[p]] + after);
    DropConcat(before, [es[p]] + after, id);
    DropConcat([es[p]], after, id);
    assert DropAll([es[p]], id) == [] by {
      assert [es[p]][1..] == [];
    }
    assert forall k :: 0 <= k < |before| ==> before[k] == es[k];
    DropAbsent(before, id);
    assert forall k :: 0 <= k < |after| ==> after[k] == es[p + 1 + k];
    DropAbsent(after, id);
  }

  /** Splicing a record out keeps the ids increasing. */
  lemma {:induction false} SpliceIncreasing(es: seq<Employee>, p: nat)
    requires IdsIncreasing(es)
    requires p < |es|
    ensures IdsIncreasing(es[..p] + es[p + 1..])
  {
    var r := es[..p] + es[p + 1..];
    forall i, j | 0 <= i < j < |r|
      ensures r[i].id < r[j].id
    {
      var i', j' := if i < p then i else i + 1, if j < p then j else j + 1;
      assert r[i] == es[i'] && r[j] == es[j'];
    }
  }

  // ---------------------------------------------------------------------
  // The store
  // ---------------------------------------------------------------------

  class Store {
    /** The module-level `employees` array. */
    var employees: seq<Employee>
    /** The module-level `currentId` counter. */
    var currentId: int
    /** Every id the store has handed out, deleted ones included. */
    ghost var issued: set<int>

    /**
     * Ids are unique and increasing along the list; every listed id was
     * issued, and every issued id is below the counter.
     */
    ghost predicate Valid()
      reads this
    {
      && 1 <= currentId
      && IdsIncreasing(employees)
      && (forall k :: 0 <= k < |employees| ==> employees[k].id in issued)
      && (forall x :: x in issued ==> 1 <= x < currentId)
    }

    /** The store starts with an empty list and the counter at 1. */
    constructor ()
      ensures Valid()
      ensures employees == [] && currentId == 1 && issued == {}
    {
      employees := [];
      currentId := 1;
      issued := {};
    }

    /** GET `/`: the list as it stands. */
    method List() returns (r: seq<Employee>)
      requires Valid()
      ensures r == employees
      ensures IdsIncreasing(r)
    {
      r := employees;
    }

    /** `{ id: currentId++, ... }` then `employees.push(...)`: the step both create paths share. */
    method Insert(name: string, department: string) returns (e: Employee)
      requires Valid()
      modifies this
      ensures Valid()
      ensures e == Employee(old(currentId), name, department)
      ensures e.id !in old(issued)
      ensures employees == old(employees) + [e]
      ensures currentId == old(currentId) + 1
      ensures issued == old(issued) + {e.id}
    {
      e := Employee(currentId, name, department);
      employees := employees + [e];
      issued := issued + {currentId};
      currentId := currentId + 1;
    }

    /** POST `/` with one object. */
    method CreateOne(entry: Entry) returns (reply: Reply)
      requires Valid()
      modifies this
      ensures Valid()
      ensures !Complete(entry) ==>
        && reply == Rejected
        && employees == old(employees) && currentId == old(currentId) && issued == old(issued)
      ensures Complete(entry) ==>
        && reply == Created(Employee(old(currentId), entry.name, entry.department))
        && old(currentId) !in old(issued)
        && employees == old(employees) + [reply.employee]
        && currentId == old(currentId) + 1
        && issued == old(issued) + {old(currentId)}
    {
      if !Complete(entry) {
        return Rejected;
      }
      var e := Insert(entry.name, entry.department);
      reply := Created(e);
    }

    /** POST `/` with an array: store the complete entries, in order, with consecutive ids. */
    method CreateMany(entries: seq<Entry>) returns (added: seq<Employee>)
      requires Valid()
      modifies this
      ensures Valid()
      ensures added == Numbered(Admitted(entries), old(currentId))
      ensures employees == old(employees) + added
      ensures currentId == old(currentId) + |Admitted(entries)|
      ensures old(issued) <= issued
    {
      added := [];
      var i := 0;
      while i < |entries|
        invariant 0 <= i <= |entries|
        invariant Valid()
        invariant added == Numbered(Admitted(entries[..i]), old(currentId))
        invariant employees == old(employees) + added
        invariant currentId == old(currentId) + |added|
        invariant old(issued) <= issued
      {
        var entry := entries[i];
        AdmittedPrefix(entries, i);
        ghost var before := Admitted(entries[..i]);
        NumberedAt(before, old(currentId));
        if Complete(entry) {
          NumberedSnoc(before, entry, old(currentId));
          var e := Insert(entry.name, entry.department);
          added := added + [e];
        } else {
          assert Admitted(entries[..i + 1]) == before;
        }
        i := i + 1;
      }
      assert entries[..i] == entries;
      NumberedAt(Admitted(entries), old(currentId));
    }

    /** POST `/`: dispatch on whether the body is an array. */
    method Post(body: Body) returns (reply: Reply)
      requires Valid()
      modifies this
      ensures Valid()
      ensures body.Single? && !Complete(body.entry) ==>
        && reply == Rejected
        && employees == old(employees) && currentId == old(currentId)
      ensures body.Single? && Complete(body.entry) ==>
        && reply == Created(Employee(old(currentId), body.entry.name, body.entry.department))
        && employees == old(employees) + [reply.employee]
        && currentId == old(currentId) + 1
      ensures body.Batch? ==>
        && reply == CreatedMany(Numbered(Admitted(body.entries), old(currentId)))
        && employees == old(employees) + reply.added
        && currentId == old(currentId) + |Admitted(body.entries)|
      ensures old(issued) <= issued
    {
      match body
      case Single(entry) =>
        reply := CreateOne(entry);
      case Batch(entries) =>
        var added := CreateMany(entries);
        reply := CreatedMany(added);
    }

    /** PUT `/:id`: overwrite name and department of the record with that id, keeping a value the body leaves empty. */
    method Update(id: int, name: string, department: string) returns (reply: Reply)
      requires Valid()
      modifies this
      ensures Valid()
      ensures currentId == old(currentId) && issued == old(issued)
      ensures Position(old(employees), id) == -1 ==> reply == NotFound && employees == old(employees)
      ensures Position(old(employees), id) >= 0 ==>
        var p := Position(old(employees), id);
        && employees == old(employees)[p := Patched(old(employees)[p], name, department)]
        && reply == Updated(employees[p])
      ensures employees == PatchAll(old(employees), id, name, department)
    {
      var p := FindIndex(employees, id);
      if p < 0 {
        PatchAbsent(employees, id, name, department);
        return NotFound;
      }
      IncreasingUnique(employees, p);
      PatchInPlace(employees, id, p, name, department);
      PatchKeepsIds(employees, id, name, department);
      var e := Patched(employees[p], name, department);
      employees := employees[p := e];
      reply := Updated(e);
    }

    /** DELETE `/:id`: splice out the record with that id. */
    method Delete(id: int) returns (reply: Reply)
      requires Valid()
      modifies this
      ensures Valid()
      ensures currentId == old(currentId) && issued == old(issued)
      ensures Position(old(employees), id) == -1 ==> reply == NotFound && employees == old(employees)
      ensures Position(old(employees), id) >= 0 ==>
        var p := Position(old(employees), id);
        && reply == Deleted
        && employees == old(employees)[..p] + old(employees)[p + 1..]
      ensures employees == DropAll(old(employees), id)
    {
      var p := FindIndex(employees, id);
      if p < 0 {
        DropAbsent(employees, id);
        return NotFound;
      }
      IncreasingUnique(employees, p);
      SpliceIsDrop(employees, id, p);
      SpliceIncreasing(employees, p);
      employees := employees[..p] + employees[p + 1..];
      reply := Deleted;
    }
  }

  /** Patching an id that no record holds leaves the list as it is. */
  lemma {:induction false} PatchAbsent(es: seq<Employee>, id: int, name: string, department: string)
    requires forall k :: 0 <= k < |es| ==> es[k].id != id
    ensures PatchAll(es, id, name, department) == es
  {
    PatchAllAt(es, id, name, department);
  }

  /** A client of the store: a deleted id is not handed out again, and two lists with no write between them agree. */
  method DeleteThenCreate()
  {
    var store := new Store();
    var first := store.CreateOne(Entry("Priya", "HR"));
    assert first == Created(Employee(1, "Priya", "HR"));
    var gone := store.Delete(1);
    assert gone == Deleted;
    var second := store.CreateOne(Entry("Mohan", "Finance"));
    assert second == Created(Employee(2, "Mohan", "Finance"));
    var once := store.List();
    var twice := store.List();
    assert once == twice == [Employee(2, "Mohan", "Finance")];
  }
}
