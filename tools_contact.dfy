// get_contact_details(option) in kvdroid/tools/contact.py: the shared row
// loop over the contacts query, then a choice of what to return.

module ToolsContact {
  import opened Wrappers
  import opened PhoneBook

  /** What the function returns: None, mobile_no_set, the dict's keys, or
      the dict itself. */
  datatype Value = NoneValue | NumberList(numbers: seq<string>) | NameList(names: seq<string>) | PhoneBook(dict: Dict)

  /** A return, or the TypeError raised for an unknown option. */
  datatype Outcome = Returned(value: Value) | TypeError

  /** The options the function accepts. */
  const Options: seq<string> := ["names", "mobile_no", "phone_book"]

  /** `cursor` is the query's result: None for a null cursor, otherwise its
      rows in order. */
  method GetContactDetails(cursor: Option<seq<Row>>, option: string) returns (r: Outcome)
    ensures cursor.None? ==> r == Returned(NoneValue)
    ensures cursor.Some? ==> (r == TypeError <==> option !in Options)
    ensures cursor.Some? && option == "mobile_no" ==> r == Returned(NumberList(Collect(cursor.value).numbers))
    ensures cursor.Some? && option == "names" ==> r == Returned(NameList(Collect(cursor.value).names))
    ensures cursor.Some? && option == "phone_book" ==> r == Returned(PhoneBook(DictOf(Collect(cursor.value))))
  {
    r := Returned(NoneValue);
    if cursor.Some? {
      var bk := CollectContacts(cursor.value);
      if option == "mobile_no" {
        r := Returned(NumberList(bk.numbers));
      } else if option == "names" {
        r := Returned(NameList(bk.names));
      } else if option == "phone_book" {
        r := Returned(PhoneBook(DictOf(bk)));
      } else {
        r := TypeError;
      }
    }
  }

  /** Whatever the option, a returned list of numbers or of names never
      holds the same entry twice. */
  lemma ReturnedListsDistinct(rows: seq<Row>)
    ensures NoDup(Collect(rows).numbers) && NoDup(Collect(rows).names)
  {
    CollectValid(rows);
  }
}
