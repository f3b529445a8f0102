/** The page's directive list ("keys to translate") and the pure updates its
    handlers hand to the state setter: seeding from the first uploaded record,
    adding a blank entry, removing one entry, editing one field of one entry;
    and the early return of the translate button when no file is loaded. */
module Editor {
  import opened Values
  import Engine

  const DefaultTargetLang := "en"
  const TranslatedSuffix := "_translated"

  /** The directives seeded when a file is loaded: one per property of the first
      record (none when the array is empty), in property order. */
  function Seed(content: seq<Item>): (r: seq<Engine.Directive>)
    ensures |content| == 0 ==> r == []
    ensures |content| > 0 ==> |r| == |content[0].order|
    ensures |content| > 0 ==> forall i :: 0 <= i < |r| ==>
      r[i] == Engine.Directive(content[0].order[i], content[0].order[i] + "_translated", "en")
  {
    var keys := if |content| == 0 then [] else content[0].order;
    seq(|keys|, i requires 0 <= i < |keys| =>
      Engine.Directive(keys[i], keys[i] + TranslatedSuffix, DefaultTargetLang))
  }

  /** A freshly seeded list names every property of the first record exactly
      once and never trips the handler's `newKey` check. */
  lemma SeedIsValid(content: seq<Item>, from: string)
    ensures forall i, j :: 0 <= i < j < |Seed(content)| ==> Seed(content)[i].key != Seed(content)[j].key
    ensures Engine.FirstMissingNewKey(Seed(content)) == None
    ensures Engine.Select(content, Seed(content), from).accepted
  {
  }

  const Blank := Engine.Directive("", "", DefaultTargetLang)

  /** `handleAddKey`: one blank entry appended, the others untouched. */
  function AddKey(ds: seq<Engine.Directive>): (r: seq<Engine.Directive>)
    ensures |r| == |ds| + 1 && r[..|ds|] == ds
    ensures r[|ds|].key == "" && r[|ds|].newKey == "" && r[|ds|].targetLang == "en"
  {
    ds + [Blank]
  }

  /** Left unedited, the added entry makes the handler answer 400, and at the
      latest it stops dispatching at that entry. */
  lemma AddedBlankIsRejected(items: seq<Item>, ds: seq<Engine.Directive>, from: string)
    ensures Engine.FirstMissingNewKey(AddKey(ds)).Some?
    ensures Engine.FirstMissingNewKey(AddKey(ds)).value <= |ds|
    ensures !Engine.Select(items, AddKey(ds), from).accepted
  {
  }

  /** `prev.filter((_, i) => i !== index)` over the entries from position `at` on. */
  function KeepOthers(ds: seq<Engine.Directive>, index: int, at: nat): seq<Engine.Directive>
    requires at <= |ds|
    decreases |ds| - at
  {
    if at == |ds| then []
    else (if at != index then [ds[at]] else []) + KeepOthers(ds, index, at + 1)
  }

  lemma {:induction false} KeepOthersDropsIndex(ds: seq<Engine.Directive>, index: int, at: nat)
    requires at <= |ds|
    ensures KeepOthers(ds, index, at)
         == if at <= index < |ds| then ds[at..index] + ds[index + 1..] else ds[at..]
    decreases |ds| - at
  {
    if at < |ds| {
      KeepOthersDropsIndex(ds, index, at + 1);
      if at == index {
        assert ds[at..index] == [];
      } else if at < index < |ds| {
        assert ds[at..index] == [ds[at]] + ds[at + 1..index];
      } else {
        assert ds[at..] == [ds[at]] + ds[at + 1..];
      }
    }
  }

  /** `handleRemoveKey`: an in-range index drops exactly that entry and keeps
      the others in order; any other index leaves the list as it was. */
  function RemoveKey(ds: seq<Engine.Directive>, index: int): (r: seq<Engine.Directive>)
    ensures 0 <= index < |ds| ==> |r| == |ds| - 1 && r == ds[..index] + ds[index + 1..]
    ensures !(0 <= index < |ds|) ==> r == ds
  {
    KeepOthersDropsIndex(ds, index, 0);
    assert ds[0..] == ds;
    KeepOthers(ds, index, 0)
  }

  /** The `name` of the input that changed. */
  datatype Field = KeyField | NewKeyField | TargetLangField

  function FieldOf(d: Engine.Directive, name: Field): string {
    match name
    case KeyField => d.key
    case NewKeyField => d.newKey
    case TargetLangField => d.targetLang
  }

  /** `{ ...d, [name]: value }` */
  function WithField(d: Engine.Directive, name: Field, value: string): Engine.Directive {
    match name
    case KeyField => d.(key := value)
    case NewKeyField => d.(newKey := value)
    case TargetLangField => d.(targetLang := value)
  }

  /** `handleKeyChange`: only field `name` of entry `index` changes. */
  function ChangeKey(ds: seq<Engine.Directive>, index: nat, name: Field, value: string): (r: seq<Engine.Directive>)
    requires index < |ds|
    ensures |r| == |ds|
    ensures forall j :: 0 <= j < |ds| && j != index ==> r[j] == ds[j]
    ensures FieldOf(r[index], name) == value
    ensures forall other :: other != name ==> FieldOf(r[index], other) == FieldOf(ds[index], other)
  {
    ds[index := WithField(ds[index], name, value)]
  }

  /** The part of the page state the translate button reads and sets before it
      sends the request. */
  datatype Page = Page(fileContent: Option<seq<Item>>, keysToTranslate: seq<Engine.Directive>,
                       sourceLang: string, loading: bool, error: Option<string>)

  /** The body posted to the handler. */
  datatype Request = Request(items: seq<Item>, keysToTranslate: seq<Engine.Directive>, sourceLang: string)

  /** The synchronous start of `handleTranslate`: without loaded content it
      returns at once, sending nothing and changing nothing; otherwise it sets
      `loading`, clears `error`, and posts the content, the directives and the
      source language. An empty array counts as loaded content. */
  function StartTranslate(page: Page): (r: (Page, Option<Request>))
    ensures page.fileContent.None? ==> r.0 == page && r.1.None?
    ensures page.fileContent.Some? ==>
      && r.1 == Some(Request(page.fileContent.value, page.keysToTranslate, page.sourceLang))
      && r.0 == page.(loading := true, error := None)
  {
    match page.fileContent
    case None => (page, None)
    case Some(content) =>
      (page.(loading := true, error := None), Some(Request(content, page.keysToTranslate, page.sourceLang)))
  }
}
