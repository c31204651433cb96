/**
  The syllabus checklist (`ContentSyllabus.jsx`) and the progress it feeds:
  checked item ids live in a map, a missing key reading as unchecked.
 */
module Syllabus {
  import opened Seqs
  import opened Percent

  /** Study priority of a syllabus item, as written in the syllabus data. */
  datatype Priority = High | Medium | Normal

  datatype Item = Item(id: string, topic: string, priority: Priority)

  datatype Group = Group(title: string, items: seq<Item>)

  /** `checkedItems`: item id to flag; an absent id is unchecked. */
  type Checked = map<string, bool>

  /** JavaScript truthiness of `checkedItems[id]`. */
  predicate IsChecked(m: Checked, id: string) {
    id in m && m[id]
  }

  /** `groups.flatMap(g => g.items)`. */
  function Flatten(groups: seq<Group>): (r: seq<Item>)
    ensures |r| == SumSizes(groups)
  {
    if |groups| == 0 then [] else groups[0].items + Flatten(groups[1..])
  }

  /** Flattening keeps the groups in order and each group's items in order. */
  lemma {:induction false} FlattenInOrder(a: seq<Group>, b: seq<Group>, g: Group)
    ensures Flatten(a + b) == Flatten(a) + Flatten(b)
    ensures Flatten([g]) == g.items
    decreases |a|
  {
    if |a| == 0 {
      assert a + b == b;
    } else {
      assert (a + b)[1..] == a[1..] + b;
      FlattenInOrder(a[1..], b, g);
    }
    assert [g][1..] == [];
  }

  /** An item is in the flattened list exactly when some group holds it. */
  lemma {:induction false} FlattenHas(groups: seq<Group>, x: Item)
    ensures x in Flatten(groups) <==> exists i :: 0 <= i < |groups| && x in groups[i].items
    decreases |groups|
  {
    if |groups| > 0 {
      FlattenHas(groups[1..], x);
      if x in Flatten(groups[1..]) {
        var i :| 0 <= i < |groups[1..]| && x in groups[1..][i].items;
        assert x in groups[i + 1].items;
      }
      if exists i :: 0 <= i < |groups| && x in groups[i].items {
        var i :| 0 <= i < |groups| && x in groups[i].items;
        if i > 0 {
          assert x in groups[1..][i - 1].items;
        }
      }
    }
  }

  function SumSizes(groups: seq<Group>): nat {
    if |groups| == 0 then 0 else |groups[0].items| + SumSizes(groups[1..])
  }

  /** The number of items, across all groups, whose id is checked. */
  function Completed(groups: seq<Group>, m: Checked): (n: nat)
    ensures n <= |Flatten(groups)|
  {
    Count(Flatten(groups), (item: Item) => IsChecked(m, item.id))
  }

  /** The percentage in a subject header: 0 for a subject with no items. */
  function SectionProgress(groups: seq<Group>, m: Checked): (r: int)
    ensures |Flatten(groups)| == 0 ==> r == 0
    ensures 0 <= r <= 100
    ensures |Flatten(groups)| > 0 ==>
      2 * |Flatten(groups)| * r <= 200 * Completed(groups, m) + |Flatten(groups)| < 2 * |Flatten(groups)| * r + 2 * |Flatten(groups)|
  {
    var total := |Flatten(groups)|;
    var done := Completed(groups, m);
    Progress(done, total)
  }

  /** Flips the truthiness of `id`; every other key keeps its value. */
  function Toggle(m: Checked, id: string): (r: Checked)
    ensures r.Keys == m.Keys + {id}
    ensures IsChecked(r, id) == !IsChecked(m, id)
    ensures forall k :: k in m && k != id ==> r[k] == m[k]
  {
    m[id := !IsChecked(m, id)]
  }

  /** Toggling the same id twice restores the checklist as the screen sees it. */
  lemma ToggleTwice(m: Checked, id: string)
    ensures forall k :: IsChecked(Toggle(Toggle(m, id), id), k) == IsChecked(m, k)
  {
    var once := Toggle(m, id);
    assert IsChecked(Toggle(once, id), id) == IsChecked(m, id);
  }

  /** `handleToggle`: flips one item and records the time of the activity. */
  function HandleToggle(m: Checked, id: string, now: string): (r: (Checked, string))
    ensures IsChecked(r.0, id) == !IsChecked(m, id)
    ensures forall k :: k != id ==> IsChecked(r.0, k) == IsChecked(m, k)
    ensures r.0 == Toggle(m, id)
    ensures r.1 == now
  {
    (Toggle(m, id), now)
  }

  /** Checking an item that appears exactly once in the syllabus adds exactly one completed item. */
  lemma CheckingOneItemCountsOnce(items: seq<Item>, m: Checked, id: string)
    requires !IsChecked(m, id)
    requires |Filter(items, (item: Item) => item.id == id)| == 1
    ensures Count(items, (item: Item) => IsChecked(Toggle(m, id), item.id))
         == Count(items, (item: Item) => IsChecked(m, item.id)) + 1
    decreases |items|
  {
    var hit := (item: Item) => item.id == id;
    assert |items| > 0;
    if items[0].id == id {
      assert Filter(items, hit) == [items[0]] + Filter(items[1..], hit);
      SameCountWithoutId(items[1..], m, id);
    } else {
      assert Filter(items, hit) == Filter(items[1..], hit);
      CheckingOneItemCountsOnce(items[1..], m, id);
    }
  }

  lemma SameCountWithoutId(items: seq<Item>, m: Checked, id: string)
    requires |Filter(items, (item: Item) => item.id == id)| == 0
    ensures Count(items, (item: Item) => IsChecked(Toggle(m, id), item.id))
         == Count(items, (item: Item) => IsChecked(m, item.id))
    decreases |items|
  {
    if |items| > 0 {
      assert items[0].id != id;
      SameCountWithoutId(items[1..], m, id);
    }
  }

  /** The colour themes of the subject sections. */
  datatype Theme = Rose | Amber | Violet | Sky | Indigo | Cyan | Emerald | Lime

  function ThemeName(t: Theme): string {
    match t
    case Rose => "rose"
    case Amber => "amber"
    case Violet => "violet"
    case Sky => "sky"
    case Indigo => "indigo"
    case Cyan => "cyan"
    case Emerald => "emerald"
    case Lime => "lime"
  }

  /** The names the theme table defines. */
  const ThemeNames: set<string> := {"rose", "amber", "violet", "sky", "indigo", "cyan", "emerald", "lime"}

  /** `getTheme`: the named theme, falling back to violet for an unknown name. */
  function GetTheme(key: string): (t: Theme)
    ensures key !in ThemeNames ==> t == Violet
    ensures key in ThemeNames ==> ThemeName(t) == key
  {
    match key
    case "rose" => Rose
    case "amber" => Amber
    case "violet" => Violet
    case "sky" => Sky
    case "indigo" => Indigo
    case "cyan" => Cyan
    case "emerald" => Emerald
    case "lime" => Lime
    case _ => Violet
  }

  /** Looking a theme up by its own name gives it back. */
  lemma ThemeRoundTrip(t: Theme)
    ensures GetTheme(ThemeName(t)) == t
  {
  }
}
