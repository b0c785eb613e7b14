// The system-font table of kvdroid/tools/font.py: get_system_font walks the
// <family> elements of the fonts XML file and their <font> children,
// grouping fonts by the part of their file name before the first '-' and
// filling the regular, italic, bold and bold-italic slots of each group;
// system_font looks one group up by name.

module Fonts {
  import opened Wrappers
  import opened PyText

  /** A <font> element: its text (the file name, possibly padded with
      whitespace) and its "weight" attribute, if any. */
  datatype FontElem = FontElem(text: string, weight: Option<string>)

  /** The dict kept per family prefix: fn_italic, fn_bold, fn_bolditalic,
      fn_regular and name. */
  datatype FontEntry = FontEntry(italic: Option<string>, bold: Option<string>, boldItalic: Option<string>,
                                 regular: Option<string>, name: string)

  /** font_dict: its keys in insertion order and the mapping. */
  datatype Table = Table(keys: seq<string>, entries: map<string, FontEntry>)

  /** The slot a font fills, if any. */
  datatype Slot = Italic | Bold | BoldItalic | Regular | NoSlot

  /** `font.text.strip()` */
  function Basename(f: FontElem): string
  {
    Strip(f.text)
  }

  /** The family prefix the font is grouped under. */
  function Key(f: FontElem): string
  {
    SplitHead(Basename(f), '-')
  }

  /** The path stored in a slot. */
  function Path(f: FontElem): string
  {
    "/system/fonts/" + Basename(f)
  }

  /** Weight 400 fills the italic slot when the lower-cased name mentions
      "italic", the regular one otherwise; weight 700 fills the bold-italic
      slot when it mentions "bolditalic", else the bold slot when it
      mentions "bold"; anything else fills nothing. */
  function SlotOf(f: FontElem): Slot
  {
    var lower := Lower(Basename(f));
    if f.weight == Some("400") then
      if Contains(lower, "italic") then Italic else Regular
    else if f.weight == Some("700") then
      if Contains(lower, "bolditalic") then BoldItalic
      else if Contains(lower, "bold") then Bold
      else NoSlot
    else NoSlot
  }

  /** What the loop uses of a font: its group, the slot it fills and the
      path it stores. */
  datatype Tag = Tag(key: string, slot: Slot, path: string)

  function TagOf(f: FontElem): Tag
  {
    Tag(Key(f), SlotOf(f), Path(f))
  }

  function Tags(fonts: seq<FontElem>): (r: seq<Tag>)
    ensures |r| == |fonts|
    ensures forall i :: 0 <= i < |fonts| ==> r[i] == TagOf(fonts[i])
  {
    seq(|fonts|, i requires 0 <= i < |fonts| => TagOf(fonts[i]))
  }

  /** A fresh entry: every slot None, name the key. */
  function NewEntry(key: string): FontEntry
  {
    FontEntry(None, None, None, None, key)
  }

  function Fill(e: FontEntry, s: Slot, path: string): FontEntry
  {
    match s
    case Italic => e.(italic := Some(path))
    case Bold => e.(bold := Some(path))
    case BoldItalic => e.(boldItalic := Some(path))
    case Regular => e.(regular := Some(path))
    case NoSlot => e
  }

  /** The body of the inner loop for one font. */
  function AddFont(t: Table, g: Tag): Table
  {
    var t' := if g.key in t.entries then t else Table(t.keys + [g.key], t.entries[g.key := NewEntry(g.key)]);
    Table(t'.keys, t'.entries[g.key := Fill(t'.entries[g.key], g.slot, g.path)])
  }

  /** The table after the fonts tagged `tags`, in document order. */
  function FontTable(tags: seq<Tag>): Table
  {
    if tags == [] then Table([], map[])
    else AddFont(FontTable(tags[..|tags| - 1]), tags[|tags| - 1])
  }

  /** All fonts of all families, in document order. */
  function Flat(families: seq<seq<FontElem>>): seq<FontElem>
  {
    if families == [] then []
    else Flat(families[..|families| - 1]) + families[|families| - 1]
  }

  /** get_system_font, over the already parsed <family> elements. */
  method GetSystemFont(families: seq<seq<FontElem>>) returns (t: Table)
    ensures t == FontTable(Tags(Flat(families)))
  {
    var keys: seq<string> := [];
    var entries: map<string, FontEntry> := map[];
    for i := 0 to |families|
      invariant Table(keys, entries) == FontTable(Tags(Flat(families[..i])))
    {
      var family := families[i];
      ghost var done := Flat(families[..i]);
      assert Flat(families[..i + 1]) == done + family by {
        assert families[..i + 1][..i] == families[..i];
      }
      assert done + family[..0] == done;
      for j := 0 to |family|
        invariant Table(keys, entries) == FontTable(Tags(done + family[..j]))
      {
        var font := family[j];
        ghost var before := Table(keys, entries);
        var basename := Strip(font.text);
        var key := SplitHead(basename, '-');
        if key !in entries {
          keys := keys + [key];
          entries := entries[key := FontEntry(None, None, None, None, key)];
        }
        var entry := FillSlot(entries[key], font, basename);
        entries := entries[key := entry];
        assert Table(keys, entries) == AddFont(before, TagOf(font));
        PrefixStep(done, family, j);
        StepTags(done + family[..j], font);
      }
      assert done + family[..|family|] == done + family;
    }
    assert families[..|families|] == families;
    t := Table(keys, entries);
  }

  /** The if/elif chain on the weight and the lower-cased name that sets
      one slot of the font's entry to its path. */
  method FillSlot(entry: FontEntry, font: FontElem, basename: string) returns (e: FontEntry)
    requires basename == Basename(font)
    ensures e == Fill(entry, SlotOf(font), Path(font))
  {
    e := entry;
    var path := "/system/fonts/" + basename;
    if font.weight == Some("400") {
      if Contains(Lower(basename), "italic") {
        e := e.(italic := Some(path));
      } else {
        e := e.(regular := Some(path));
      }
    } else if font.weight == Some("700") {
      if Contains(Lower(basename), "bolditalic") {
        e := e.(boldItalic := Some(path));
      } else if Contains(Lower(basename), "bold") {
        e := e.(bold := Some(path));
      }
    }
  }

  lemma PrefixStep<T>(a: seq<T>, b: seq<T>, j: nat)
    requires j < |b|
    ensures a + b[..j + 1] == (a + b[..j]) + [b[j]]
  {
    assert b[..j + 1] == b[..j] + [b[j]];
  }

  /** Tagging one more font adds one more step to the table. */
  lemma StepTags(fonts: seq<FontElem>, f: FontElem)
    ensures FontTable(Tags(fonts + [f])) == AddFont(FontTable(Tags(fonts)), TagOf(f))
  {
    var tags := Tags(fonts + [f]);
    assert tags[..|tags| - 1] == Tags(fonts);
  }

  /** What system_font returns: the entry, or the KeyError of the lookup. */
  datatype Lookup = Entry(entry: FontEntry) | KeyError

  /** system_font(name): `get_system_font()[name]`. */
  method SystemFont(families: seq<seq<FontElem>>, name: string) returns (r: Lookup)
    ensures r == KeyError <==> forall i :: 0 <= i < |Flat(families)| ==> Key(Flat(families)[i]) != name
    ensures r.Entry? ==> r.entry == Summary(Tags(Flat(families)), name)
  {
    var t := GetSystemFont(families);
    var tags := Tags(Flat(families));
    TableKeys(tags);
    EntriesAreSummaries(tags);
    if name in t.entries {
      r := Entry(t.entries[name]);
    } else {
      r := KeyError;
    }
  }

  // --- properties ---

  /** The path of the last font grouped under `key` that fills slot `s`. */
  function LastMatch(tags: seq<Tag>, key: string, s: Slot): (r: Option<string>)
    ensures r == None <==> forall i :: 0 <= i < |tags| ==> tags[i].key != key || tags[i].slot != s
  {
    if tags == [] then None
    else if tags[|tags| - 1].key == key && tags[|tags| - 1].slot == s then Some(tags[|tags| - 1].path)
    else
      var r := LastMatch(tags[..|tags| - 1], key, s);
      assert forall i :: 0 <= i < |tags| - 1 ==> tags[..|tags| - 1][i] == tags[i];
      r
  }

  /** A filled slot holds the path of a font of that group and slot, and no
      later font of the same group and slot exists: the last one wins. */
  lemma {:induction false} LastMatchIsLast(tags: seq<Tag>, key: string, s: Slot, p: string)
    requires LastMatch(tags, key, s) == Some(p)
    ensures exists i :: 0 <= i < |tags| && tags[i] == Tag(key, s, p)
                        && forall j :: i < j < |tags| ==> tags[j].key != key || tags[j].slot != s
  {
    var n := |tags|;
    if tags[n - 1].key == key && tags[n - 1].slot == s {
      assert tags[n - 1] == Tag(key, s, p);
    } else {
      var init := tags[..n - 1];
      LastMatchIsLast(init, key, s, p);
      var i :| 0 <= i < |init| && init[i] == Tag(key, s, p)
               && forall j :: i < j < |init| ==> init[j].key != key || init[j].slot != s;
      assert tags[i] == init[i];
      assert forall j :: i < j < n - 1 ==> tags[j] == init[j];
    }
  }

  /** The entry the fonts give a key: each slot the last matching path,
      the name the key itself. */
  function Summary(tags: seq<Tag>, key: string): (e: FontEntry)
    ensures e.name == key
  {
    FontEntry(LastMatch(tags, key, Italic), LastMatch(tags, key, Bold), LastMatch(tags, key, BoldItalic),
              LastMatch(tags, key, Regular), key)
  }

  predicate NoDuplicates(s: seq<string>)
  {
    forall i, j :: 0 <= i < j < |s| ==> s[i] != s[j]
  }

  /** The group `k` has a font among `tags`. */
  predicate HasGroup(tags: seq<Tag>, k: string)
  {
    exists i :: 0 <= i < |tags| && tags[i].key == k
  }

  /** The keys of font_dict: no key twice, the dict's keys, and exactly the
      family prefixes of the fonts. */
  lemma {:induction false} TableKeys(tags: seq<Tag>)
    ensures NoDuplicates(FontTable(tags).keys)
    ensures forall k :: k in FontTable(tags).entries <==> k in FontTable(tags).keys
    ensures forall k :: k in FontTable(tags).entries <==> HasGroup(tags, k)
  {
    if tags != [] {
      var init := tags[..|tags| - 1];
      TableKeys(init);
      forall k | HasGroup(init, k)
        ensures HasGroup(tags, k)
      {
        var i :| 0 <= i < |init| && init[i].key == k;
        assert tags[i] == init[i];
      }
      forall k | HasGroup(tags, k)
        ensures k in FontTable(tags).entries
      {
        var i :| 0 <= i < |tags| && tags[i].key == k;
        if i < |init| {
          assert init[i] == tags[i];
        }
      }
    }
  }

  /** Each entry of font_dict is the summary of its group: an entry is made
      once, with empty slots, on its group's first font, and every later
      font of the group only overwrites the slot it fills. */
  lemma {:induction false} EntriesAreSummaries(tags: seq<Tag>)
    ensures forall k :: k in FontTable(tags).entries ==> FontTable(tags).entries[k] == Summary(tags, k)
  {
    if tags != [] {
      var init := tags[..|tags| - 1];
      var g := tags[|tags| - 1];
      EntriesAreSummaries(init);
      TableKeys(init);
      forall k | k in FontTable(tags).entries
        ensures FontTable(tags).entries[k] == Summary(tags, k)
      {
        if k == g.key && k !in FontTable(init).entries {
          assert !HasGroup(init, k);
          assert forall s :: LastMatch(init, k, s) == None;
        }
      }
    }
  }

  /** A font whose weight is neither "400" nor "700" creates its group's
      entry if need be but fills no slot. */
  lemma OtherWeightFillsNothing(fonts: seq<FontElem>, f: FontElem)
    requires f.weight != Some("400") && f.weight != Some("700")
    ensures Key(f) in FontTable(Tags(fonts + [f])).entries
    ensures var before := FontTable(Tags(fonts));
            FontTable(Tags(fonts + [f])).entries[Key(f)]
            == if Key(f) in before.entries then before.entries[Key(f)] else NewEntry(Key(f))
  {
    StepTags(fonts, f);
  }
}
