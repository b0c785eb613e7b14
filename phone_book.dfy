// The row loop shared by get_contact_details in kvdroid/tools/contact.py
// and kvdroid/contact.py: every row of the contacts query gives a display
// name and a phone number; spaces are removed from the number, a number
// seen before is dropped, and kept numbers are grouped by name, the names
// keeping the order in which their first number was kept.

module PhoneBook {
  import opened PyText

  /** One row of the query: display_name and the phone NUMBER column. */
  datatype Row = Row(name: string, number: string)

  /** The loop's state: `numbers` is mobile_no_set; the dict phone_book is
      its keys in insertion order (`names`) and the key -> list mapping. */
  datatype Book = Book(numbers: seq<string>, names: seq<string>, lists: map<string, seq<string>>)

  const Empty: Book := Book([], [], map[])

  /** A Python dict from names to number lists: its keys in insertion
      order and the mapping. */
  datatype Dict = Dict(keys: seq<string>, items: map<string, seq<string>>)

  /** The phone_book dict the loop leaves. */
  function DictOf(bk: Book): Dict
  {
    Dict(bk.names, bk.lists)
  }

  /** `list(d.values())`: the lists in key order. */
  function Values(d: Dict): seq<seq<string>>
    decreases |d.keys|
  {
    if d.keys == [] then []
    else Values(Dict(d.keys[..|d.keys| - 1], d.items)) + [Lookup(d.items, d.keys[|d.keys| - 1])]
  }

  function Concat(xs: seq<seq<string>>): seq<string>
  {
    if xs == [] then [] else Concat(xs[..|xs| - 1]) + xs[|xs| - 1]
  }

  predicate NoDup<T(==)>(s: seq<T>)
  {
    forall i, j :: 0 <= i < j < |s| ==> s[i] != s[j]
  }

  /** `d.get(k, [])` */
  function Lookup(m: map<string, seq<string>>, k: string): seq<string>
  {
    if k in m then m[k] else []
  }

  /** The per-name lists concatenated in key order. */
  function Flatten(names: seq<string>, lists: map<string, seq<string>>): seq<string>
  {
    if names == [] then []
    else Flatten(names[..|names| - 1], lists) + Lookup(lists, names[|names| - 1])
  }

  /** One turn of the loop. */
  function AddRow(bk: Book, row: Row): Book
  {
    var number := RemoveSpaces(row.number);
    if number in bk.numbers then bk
    else if row.name in bk.lists then
      Book(bk.numbers + [number], bk.names, bk.lists[row.name := bk.lists[row.name] + [number]])
    else
      Book(bk.numbers + [number], bk.names + [row.name], bk.lists[row.name := [number]])
  }

  /** The state after the loop has consumed `rows`. */
  function Collect(rows: seq<Row>): Book
  {
    if rows == [] then Empty
    else AddRow(Collect(rows[..|rows| - 1]), rows[|rows| - 1])
  }

  /** No number and no name twice. */
  predicate Distinct(bk: Book)
  {
    NoDup(bk.numbers) && NoDup(bk.names)
  }

  /** No stored number holds a space. */
  predicate Stripped(bk: Book)
  {
    forall n :: n in bk.numbers ==> ' ' !in n
  }

  /** The dict's keys are the names, and no list is empty. */
  ghost predicate Keyed(bk: Book)
  {
    && (forall nm :: nm in bk.lists <==> nm in bk.names)
    && (forall nm :: nm in bk.lists ==> bk.lists[nm] != [])
  }

  /** Every listed number is in mobile_no_set, under one name only. */
  ghost predicate Owned(bk: Book)
  {
    && (forall nm, n :: nm in bk.lists && n in bk.lists[nm] ==> n in bk.numbers)
    && (forall nm1, nm2, n :: nm1 in bk.lists && nm2 in bk.lists && n in bk.lists[nm1] && n in bk.lists[nm2]
          ==> nm1 == nm2)
  }

  /** What the loop keeps true of its list and dict. */
  ghost predicate Valid(bk: Book)
  {
    && Distinct(bk)
    && Stripped(bk)
    && Keyed(bk)
    && Owned(bk)
    && multiset(Flatten(bk.names, bk.lists)) == multiset(bk.numbers)
  }

  /** The while loop of get_contact_details over the cursor's rows. */
  method CollectContacts(rows: seq<Row>) returns (bk: Book)
    ensures bk == Collect(rows)
    ensures Valid(bk)
  {
    var numbers: seq<string> := [];
    var names: seq<string> := [];
    var lists: map<string, seq<string>> := map[];
    var i := 0;
    while i < |rows|
      invariant 0 <= i <= |rows|
      invariant Book(numbers, names, lists) == Collect(rows[..i])
    {
      var name := rows[i].name;
      var number := RemoveSpaces(rows[i].number);
      if number !in numbers {
        if name in lists {
          lists := lists[name := lists[name] + [number]];
        } else {
          names := names + [name];
          lists := lists[name := [number]];
        }
        numbers := numbers + [number];
      }
      assert rows[..i + 1][..i] == rows[..i];
      i := i + 1;
    }
    assert rows[..i] == rows;
    bk := Book(numbers, names, lists);
    CollectValid(rows);
  }

  // --- the invariant ---

  lemma FlattenOther(names: seq<string>, lists: map<string, seq<string>>, nm: string, v: seq<string>)
    requires nm !in names
    ensures Flatten(names, lists[nm := v]) == Flatten(names, lists)
  {
    if names != [] {
      FlattenOther(names[..|names| - 1], lists, nm, v);
    }
  }

  lemma {:induction false} FlattenAppend(names: seq<string>, lists: map<string, seq<string>>, nm: string, n: string)
    requires NoDup(names) && nm in names && nm in lists
    ensures multiset(Flatten(names, lists[nm := lists[nm] + [n]]))
            == multiset(Flatten(names, lists)) + multiset{n}
  {
    var init := names[..|names| - 1];
    var last := names[|names| - 1];
    var lists' := lists[nm := lists[nm] + [n]];
    if last == nm {
      assert nm !in init;
      FlattenOther(init, lists, nm, lists[nm] + [n]);
    } else {
      FlattenAppend(init, lists, nm, n);
    }
  }

  lemma AddRowDistinct(bk: Book, row: Row)
    requires Distinct(bk) && Keyed(bk)
    ensures Distinct(AddRow(bk, row))
  {
  }

  lemma AddRowStripped(bk: Book, row: Row)
    requires Stripped(bk)
    ensures Stripped(AddRow(bk, row))
  {
  }

  lemma AddRowKeyed(bk: Book, row: Row)
    requires Keyed(bk)
    ensures Keyed(AddRow(bk, row))
  {
  }

  lemma AddRowOwned(bk: Book, row: Row)
    requires Owned(bk)
    ensures Owned(AddRow(bk, row))
  {
    var number := RemoveSpaces(row.number);
    if number !in bk.numbers {
      var bk' := AddRow(bk, row);
      forall nm1, nm2, n | nm1 in bk'.lists && nm2 in bk'.lists && n in bk'.lists[nm1] && n in bk'.lists[nm2]
        ensures nm1 == nm2
      {
        if n == number {
          assert nm1 == row.name && nm2 == row.name;
        } else {
          assert n in Lookup(bk.lists, nm1) && n in Lookup(bk.lists, nm2);
        }
      }
    }
  }

  lemma AddRowCounted(bk: Book, row: Row)
    requires Distinct(bk) && Keyed(bk)
    requires multiset(Flatten(bk.names, bk.lists)) == multiset(bk.numbers)
    ensures var bk' := AddRow(bk, row); multiset(Flatten(bk'.names, bk'.lists)) == multiset(bk'.numbers)
  {
    var number := RemoveSpaces(row.number);
    if number !in bk.numbers {
      var bk' := AddRow(bk, row);
      if row.name in bk.lists {
        FlattenAppend(bk.names, bk.lists, row.name, number);
      } else {
        FlattenOther(bk.names, bk.lists, row.name, [number]);
        assert bk'.names[..|bk'.names| - 1] == bk.names;
      }
    }
  }

  /** A turn of the loop keeps the invariant. */
  lemma AddRowValid(bk: Book, row: Row)
    requires Valid(bk)
    ensures Valid(AddRow(bk, row))
  {
    AddRowDistinct(bk, row);
    AddRowStripped(bk, row);
    AddRowKeyed(bk, row);
    AddRowOwned(bk, row);
    AddRowCounted(bk, row);
  }

  /** Whatever the rows, the loop ends with: no number twice, no spaces in
      a number, one key per name, each key's list non-empty, every number
      under exactly one name, and the lists together holding exactly the
      numbers of mobile_no_set. */
  lemma {:induction false} CollectValid(rows: seq<Row>)
    ensures Valid(Collect(rows))
  {
    if rows != [] {
      CollectValid(rows[..|rows| - 1]);
      AddRowValid(Collect(rows[..|rows| - 1]), rows[|rows| - 1]);
    }
  }

  /** In particular the lists hold as many numbers as mobile_no_set. */
  lemma CountsAgree(rows: seq<Row>)
    ensures |Flatten(Collect(rows).names, Collect(rows).lists)| == |Collect(rows).numbers|
  {
    CollectValid(rows);
    var bk := Collect(rows);
    assert |multiset(Flatten(bk.names, bk.lists))| == |multiset(bk.numbers)|;
  }

  // --- a reference definition: first occurrences ---

  /** The number of row i, spaces removed, appears in no earlier row. */
  predicate FirstAt(rows: seq<Row>, i: nat)
    requires i < |rows|
  {
    forall j :: 0 <= j < i ==> RemoveSpaces(rows[j].number) != RemoveSpaces(rows[i].number)
  }

  /** The rows whose number is a first occurrence, with spaces removed. */
  function Kept(rows: seq<Row>): seq<Row>
  {
    if rows == [] then []
    else
      var last := rows[|rows| - 1];
      if FirstAt(rows, |rows| - 1) then Kept(rows[..|rows| - 1]) + [Row(last.name, RemoveSpaces(last.number))]
      else Kept(rows[..|rows| - 1])
  }

  function Numbers(k: seq<Row>): seq<string>
  {
    if k == [] then [] else Numbers(k[..|k| - 1]) + [k[|k| - 1].number]
  }

  /** The numbers of `k` that belong to `nm`, in order. */
  function Under(k: seq<Row>, nm: string): seq<string>
  {
    if k == [] then []
    else Under(k[..|k| - 1], nm) + (if k[|k| - 1].name == nm then [k[|k| - 1].number] else [])
  }

  /** The names of `k`, each once, in order of first appearance. */
  function NamesOf(k: seq<Row>): seq<string>
  {
    if k == [] then []
    else
      var init := NamesOf(k[..|k| - 1]);
      if k[|k| - 1].name in init then init else init + [k[|k| - 1].name]
  }

  /** Some row carries the number `n`, once its spaces are removed. */
  predicate Carries(rows: seq<Row>, n: string)
  {
    exists j :: 0 <= j < |rows| && RemoveSpaces(rows[j].number) == n
  }

  lemma CarriesSnoc(rows: seq<Row>, n: string)
    requires rows != []
    ensures Carries(rows, n) <==> Carries(rows[..|rows| - 1], n) || RemoveSpaces(rows[|rows| - 1].number) == n
  {
    var init := rows[..|rows| - 1];
    if Carries(init, n) {
      var j :| 0 <= j < |init| && RemoveSpaces(init[j].number) == n;
      assert rows[j] == init[j];
    }
    if Carries(rows, n) {
      var j :| 0 <= j < |rows| && RemoveSpaces(rows[j].number) == n;
      if j < |init| {
        assert init[j] == rows[j];
      }
    }
  }

  /** A number was kept exactly when some row carried it. */
  lemma {:induction false} SeenIff(rows: seq<Row>, n: string)
    ensures n in Collect(rows).numbers <==> Carries(rows, n)
  {
    if rows != [] {
      var init := rows[..|rows| - 1];
      SeenIff(init, n);
      CarriesSnoc(rows, n);
      assert n in Collect(rows).numbers <==> n in Collect(init).numbers || n == RemoveSpaces(rows[|rows| - 1].number);
    }
  }

  /** The last row is a first occurrence exactly when the loop has not
      yet seen its number. */
  lemma FirstIffUnseen(rows: seq<Row>)
    requires rows != []
    ensures FirstAt(rows, |rows| - 1)
            <==> RemoveSpaces(rows[|rows| - 1].number) !in Collect(rows[..|rows| - 1]).numbers
  {
    var init := rows[..|rows| - 1];
    var n := RemoveSpaces(rows[|rows| - 1].number);
    SeenIff(init, n);
    if n in Collect(init).numbers {
      var j :| 0 <= j < |init| && RemoveSpaces(init[j].number) == n;
      assert rows[j] == init[j];
    }
    if !FirstAt(rows, |rows| - 1) {
      var j :| 0 <= j < |rows| - 1 && RemoveSpaces(rows[j].number) == n;
      assert init[j] == rows[j];
    }
  }

  /** mobile_no_set is the first-occurring numbers, in row order. */
  lemma {:induction false} CollectNumbersKept(rows: seq<Row>)
    ensures Collect(rows).numbers == Numbers(Kept(rows))
  {
    if rows != [] {
      var init := rows[..|rows| - 1];
      var last := rows[|rows| - 1];
      CollectNumbersKept(init);
      FirstIffUnseen(rows);
      if FirstAt(rows, |rows| - 1) {
        var k := Kept(init) + [Row(last.name, RemoveSpaces(last.number))];
        assert k[..|k| - 1] == Kept(init);
      }
    }
  }

  /** The keys are the names in the order of their first kept number. */
  lemma {:induction false} CollectNamesKept(rows: seq<Row>)
    ensures Collect(rows).names == NamesOf(Kept(rows))
  {
    if rows != [] {
      var init := rows[..|rows| - 1];
      var last := rows[|rows| - 1];
      CollectNamesKept(init);
      CollectValid(init);
      FirstIffUnseen(rows);
      if FirstAt(rows, |rows| - 1) {
        var k := Kept(init) + [Row(last.name, RemoveSpaces(last.number))];
        assert k[..|k| - 1] == Kept(init);
      }
    }
  }

  /** Each name's list is its first-occurring numbers in row order; a name
      without a key has none. */
  lemma {:induction false} CollectListsKept(rows: seq<Row>)
    ensures forall nm :: Lookup(Collect(rows).lists, nm) == Under(Kept(rows), nm)
  {
    if rows != [] {
      var init := rows[..|rows| - 1];
      var last := rows[|rows| - 1];
      var n := RemoveSpaces(last.number);
      CollectListsKept(init);
      FirstIffUnseen(rows);
      if FirstAt(rows, |rows| - 1) {
        var k := Kept(init) + [Row(last.name, n)];
        assert k[..|k| - 1] == Kept(init);
        forall nm
          ensures Lookup(Collect(rows).lists, nm) == Under(k, nm)
        {
          assert Under(k, nm) == Under(Kept(init), nm) + (if last.name == nm then [n] else []);
        }
      }
    }
  }

  /** A number seen before is dropped, whatever name it now comes under. */
  lemma DuplicateDropped(rows: seq<Row>, row: Row)
    requires exists j :: 0 <= j < |rows| && RemoveSpaces(rows[j].number) == RemoveSpaces(row.number)
    ensures Collect(rows + [row]) == Collect(rows)
  {
    SeenIff(rows, RemoveSpaces(row.number));
    assert (rows + [row])[..|rows|] == rows;
  }

  /** A number not seen before is appended to mobile_no_set and to its
      name's list, which is created with it if the name is new. */
  lemma NewNumberKept(rows: seq<Row>, row: Row)
    requires forall j :: 0 <= j < |rows| ==> RemoveSpaces(rows[j].number) != RemoveSpaces(row.number)
    ensures Collect(rows + [row]).numbers == Collect(rows).numbers + [RemoveSpaces(row.number)]
    ensures Collect(rows + [row]).lists[row.name]
            == Lookup(Collect(rows).lists, row.name) + [RemoveSpaces(row.number)]
  {
    var n := RemoveSpaces(row.number);
    var bk := Collect(rows);
    assert n !in bk.numbers by {
      SeenIff(rows, n);
    }
    assert (rows + [row])[..|rows|] == rows;
    assert Collect(rows + [row]) == AddRow(bk, row);
  }

  // --- the dict's values ---

  lemma {:induction false} ValuesFlatten(d: Dict)
    ensures |Values(d)| == |d.keys|
    ensures forall i :: 0 <= i < |d.keys| ==> Values(d)[i] == Lookup(d.items, d.keys[i])
    ensures Concat(Values(d)) == Flatten(d.keys, d.items)
    decreases |d.keys|
  {
    if d.keys != [] {
      var n := |d.keys|;
      var init := Dict(d.keys[..n - 1], d.items);
      var last := Lookup(d.items, d.keys[n - 1]);
      ValuesFlatten(init);
      var vs, ivs := Values(d), Values(init);
      assert vs == ivs + [last];
      forall i | 0 <= i < n
        ensures vs[i] == Lookup(d.items, d.keys[i])
      {
        if i < n - 1 {
          assert vs[i] == ivs[i] && init.keys[i] == d.keys[i];
        }
      }
      assert vs[..|vs| - 1] == ivs;
      assert Concat(vs) == Concat(ivs) + last;
      assert Flatten(d.keys, d.items) == Flatten(init.keys, d.items) + last;
    }
  }

  lemma {:induction false} NoDupCounts<T>(s: seq<T>)
    requires NoDup(s)
    ensures forall x :: multiset(s)[x] <= 1
  {
    if s != [] {
      var init := s[..|s| - 1];
      NoDupCounts(init);
      assert s == init + [s[|s| - 1]];
      assert s[|s| - 1] !in init;
    }
  }

  lemma CountsNoDup<T>(s: seq<T>)
    requires forall x :: multiset(s)[x] <= 1
    ensures NoDup(s)
  {
    forall i, j | 0 <= i < j < |s|
      ensures s[i] != s[j]
    {
      assert s == s[..j] + [s[j]] + s[j + 1..];
      assert s[i] in s[..j];
      assert multiset(s)[s[j]] >= multiset(s[..j])[s[j]] + 1;
    }
  }

  /** The values of the phone_book dict, one list per key in key order,
      hold together each number of mobile_no_set exactly once. */
  lemma ValuesAreNumbers(rows: seq<Row>)
    ensures var bk := Collect(rows);
            && multiset(Concat(Values(DictOf(bk)))) == multiset(bk.numbers)
            && NoDup(Concat(Values(DictOf(bk))))
  {
    var bk := Collect(rows);
    CollectValid(rows);
    ValuesFlatten(DictOf(bk));
    NoDupCounts(bk.numbers);
    CountsNoDup(Concat(Values(DictOf(bk))));
  }

  /** Each of those lists is non-empty and holds space-free numbers. */
  lemma ValuesShape(rows: seq<Row>)
    ensures forall l :: l in Values(DictOf(Collect(rows))) ==> l != [] && forall n :: n in l ==> ' ' !in n
  {
    var bk := Collect(rows);
    var vs := Values(DictOf(bk));
    CollectValid(rows);
    ValuesFlatten(DictOf(bk));
    forall l | l in vs
      ensures l != [] && forall n :: n in l ==> ' ' !in n
    {
      var i :| 0 <= i < |vs| && vs[i] == l;
      assert bk.names[i] in bk.lists;
    }
  }
}
