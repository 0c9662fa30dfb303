/** The fixed category table of vacation_app.py (`type_options`): each
    schedule category label with the colour its events are drawn in, in the
    order the selection boxes list them. */
module Categories {
  import opened Wrappers

  /** Colour of an event whose category is not in the table. */
  const DefaultColor: string := "#3788d8"

  /** The two half-day categories, drawn as timed windows. */
  const MorningHalfDay: string := "🌅 오전 반차"
  const AfternoonHalfDay: string := "🌇 오후 반차"

  /** Label and colour of every category, in declaration order. */
  const TypeOptions: seq<(string, string)> := [
    ("📑 제안", "#9C27B0"),
    ("💻 프로젝트", "#6BCB77"),
    ("🏖️ 휴가 (종일)", "#FF6B6B"),
    (MorningHalfDay, "#FFB347"),
    (AfternoonHalfDay, "#FFCC00"),
    ("✈️ 출장/외근", "#4D96FF"),
    ("🔥 긴급/야근", "#E91E63"),
    ("📅 기타", "#A2A2A2")
  ]

  /** `list(type_options.keys())`: the labels alone, in the same order. */
  function TypeKeys(): (keys: seq<string>)
    ensures |keys| == |TypeOptions|
    ensures forall i :: 0 <= i < |keys| ==> keys[i] == TypeOptions[i].0
  {
    seq(|TypeOptions|, i requires 0 <= i < |TypeOptions| => TypeOptions[i].0)
  }

  /** No label occurs twice, as the keys of a dictionary. */
  predicate DistinctKeys(keys: seq<string>) {
    forall i, j :: 0 <= i < j < |keys| ==> keys[i] != keys[j]
  }

  /** Dictionary lookup over an association list: the value paired with the
      first occurrence of `key`, if any. */
  function Lookup(entries: seq<(string, string)>, key: string): (r: Option<string>)
    ensures r.None? <==> forall i :: 0 <= i < |entries| ==> entries[i].0 != key
    ensures r.Some? ==> exists i :: 0 <= i < |entries| && entries[i] == (key, r.value)
  {
    if |entries| == 0 then None
    else if entries[0].0 == key then Some(entries[0].1)
    else
      var r := Lookup(entries[1..], key);
      assert forall i :: 1 <= i < |entries| ==> entries[i] == entries[1..][i - 1];
      r
  }

  /** `type_options.get(category, "#3788d8")`: a listed category is drawn in
      its own table colour, and the default colour appears exactly for the
      categories outside the table, since no table colour equals it. */
  function ColorOf(category: string): (c: string)
    ensures c == DefaultColor <==> category !in TypeKeys()
    ensures forall i :: 0 <= i < |TypeOptions| && TypeOptions[i].0 == category ==> c == TypeOptions[i].1
  {
    KeysAreDistinct();
    var r := Lookup(TypeOptions, category);
    if r.Some? then
      var j :| 0 <= j < |TypeOptions| && TypeOptions[j] == (category, r.value);
      assert TypeKeys()[j] == category;
      r.value
    else DefaultColor
  }

  /** Position of the first occurrence of `key` in `keys`, if any. */
  function FirstIndex(keys: seq<string>, key: string): (r: Option<nat>)
    ensures r.None? <==> key !in keys
    ensures r.Some? ==> r.value < |keys| && keys[r.value] == key
    ensures r.Some? ==> forall j :: 0 <= j < r.value ==> keys[j] != key
  {
    if |keys| == 0 then None
    else if keys[0] == key then Some(0)
    else
      match FirstIndex(keys[1..], key)
      case None => None
      case Some(i) => Some(i + 1)
  }

  /** Initial selection of the edit form's category box: the category's
      position in the key list, or 0 when `list.index` raises `ValueError`. */
  function TypeIndex(category: string): (r: nat)
    ensures r < |TypeKeys()|
    ensures category in TypeKeys() ==> TypeKeys()[r] == category
    ensures category !in TypeKeys() ==> r == 0
  {
    match FirstIndex(TypeKeys(), category)
    case None => 0
    case Some(i) => i
  }

  lemma KeysAreDistinct()
    ensures DistinctKeys(TypeKeys())
  {
  }

  /** Selecting a listed category and reading back its index is the identity,
      because the labels are distinct. */
  lemma TypeIndexOfKey(i: nat)
    requires i < |TypeKeys()|
    ensures TypeIndex(TypeKeys()[i]) == i
  {
    KeysAreDistinct();
  }

  /** Both half-day labels are listed categories. */
  lemma HalfDaysAreKeys()
    ensures MorningHalfDay in TypeKeys() && AfternoonHalfDay in TypeKeys()
    ensures MorningHalfDay != AfternoonHalfDay
  {
    assert TypeKeys()[3] == MorningHalfDay;
    assert TypeKeys()[4] == AfternoonHalfDay;
  }
}
