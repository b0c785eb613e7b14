// kvdroid/contact.py: get_contact_details returns the phone_book dict of
// the shared row loop (empty for a null cursor); get_contact_names and
// get_contact_numbers project its keys and its values.

module Contact {
  import opened Wrappers
  import opened PhoneBook

  method GetContactDetails(cursor: Option<seq<Row>>) returns (d: Dict)
    ensures cursor.None? ==> d == Dict([], map[])
    ensures cursor.Some? ==> d == DictOf(Collect(cursor.value))
    ensures NoDup(d.keys) && forall nm :: nm in d.items <==> nm in d.keys
  {
    d := Dict([], map[]);
    if cursor.Some? {
      var bk := CollectContacts(cursor.value);
      d := DictOf(bk);
    }
  }

  /** `list(get_contact_details().keys())` */
  method GetContactNames(cursor: Option<seq<Row>>) returns (names: seq<string>)
    ensures cursor.None? ==> names == []
    ensures cursor.Some? ==> names == Collect(cursor.value).names
    ensures NoDup(names)
  {
    var d := GetContactDetails(cursor);
    names := d.keys;
  }

  /** `list(get_contact_details().values())`: one list per name, in key
      order; together they hold every kept number once. */
  method GetContactNumbers(cursor: Option<seq<Row>>) returns (lists: seq<seq<string>>)
    ensures cursor.None? ==> lists == []
    ensures cursor.Some? ==> var bk := Collect(cursor.value);
              |lists| == |bk.names| && forall i :: 0 <= i < |lists| ==> lists[i] == Lookup(bk.lists, bk.names[i])
    ensures cursor.Some? ==> multiset(Concat(lists)) == multiset(Collect(cursor.value).numbers)
    ensures NoDup(Concat(lists))
    ensures forall l :: l in lists ==> l != [] && forall n :: n in l ==> ' ' !in n
  {
    var d := GetContactDetails(cursor);
    lists := Values(d);
    if cursor.Some? {
      ValuesFlatten(d);
      ValuesAreNumbers(cursor.value);
      ValuesShape(cursor.value);
    }
  }
}
