/** The label/value tables that both versions of `extract_vehicle_data` build
    from a vehicle detail page: a key is derived from each item's label, and
    a later item with the same key replaces an earlier one. */
module Details {
  import opened Wrappers
  import opened PyText
  import opened Pages

  /** The two lists of a detail page: the feature items and the overview
      ("listing-vdp-stats") items. */
  datatype Section = Features | Overview

  /** Which items are stored: the current extractor stores every item whose
      key is non-empty, missing value or not; the legacy one also needs a
      non-empty value. */
  datatype Rule = KeyOnly | KeyAndValue

  /** The key of a label: stripped, spaces turned into `_`, lower-cased; an
      overview label also loses every `:` before that. */
  function KeyOf(sec: Section, text: string): (k: string)
    ensures ' ' !in k
    ensures sec == Overview ==> ':' !in k
    ensures forall i | 0 <= i < |k| :: !('A' <= k[i] <= 'Z')
    ensures sec == Features && k != [] ==> !IsSpace(k[0]) && !IsSpace(k[|k| - 1])
  {
    match sec
    case Features => Normalise(Strip(text))
    case Overview => Normalise(RemoveChar(Strip(text), ':'))
  }

  /** Spaces turned into `_`, then lower-cased. */
  function Normalise(u: string): (k: string)
    ensures |k| == |u|
    ensures ' ' !in k
    ensures ':' !in u ==> ':' !in k
    ensures forall i | 0 <= i < |k| :: !('A' <= k[i] <= 'Z')
    ensures k != [] && !IsSpace(u[0]) && !IsSpace(u[|u| - 1]) ==> !IsSpace(k[0]) && !IsSpace(k[|k| - 1])
  {
    var r := ReplaceChar(u, ' ', '_');
    var k := Lower(r);
    assert forall i | 0 <= i < |k| :: k[i] != ' ' && (':' !in u ==> k[i] != ':') && (IsSpace(k[i]) ==> IsSpace(u[i])) by {
      forall i | 0 <= i < |k| ensures k[i] != ' ' && (':' !in u ==> k[i] != ':') && (IsSpace(k[i]) ==> IsSpace(u[i])) {
        assert k[i] == LowerChar(r[i]);
        assert u[i] in u;
      }
    }
    k
  }

  /** A two-word overview label ending in a colon, such as "Body Type:",
      is its two words lower-cased and joined by `_`. */
  lemma TwoWordOverviewKey(a: string, b: string)
    requires a != [] && b != [] && NoSpace(a) && NoSpace(b) && ':' !in a && ':' !in b
    ensures KeyOf(Overview, a + " " + b + ":") == Lower(a) + "_" + Lower(b)
  {
    var u := a + " " + b;
    LabelWithColon(a, b);
    RemoveConcat(u, ":", ':');
    RemoveAbsent(u, ':');
    assert RemoveChar(":", ':') == "";
    assert u + "" == u;
    SpaceToUnderscore(a, b);
    LowerConcat(a + "_", b);
    LowerConcat(a, "_");
    assert Lower("_") == "_";
  }

  /** The two-word label is already stripped and its words hold no colon. */
  lemma LabelWithColon(a: string, b: string)
    requires a != [] && NoSpace(a) && ':' !in a && ':' !in b
    ensures ':' !in a + " " + b
    ensures Strip(a + " " + b + ":") == a + " " + b + ":"
  {
    var t := a + " " + b + ":";
    assert t[0] == a[0] && t[|t| - 1] == ':';
    StripTrimmed(t);
  }

  /** Replacing the space between two space-free words joins them by `_`. */
  lemma SpaceToUnderscore(a: string, b: string)
    requires NoSpace(a) && NoSpace(b)
    ensures ReplaceChar(a + " " + b, ' ', '_') == a + "_" + b
  {
    assert ' ' !in a by {
      assert forall i | 0 <= i < |a| :: a[i] != ' ';
    }
    assert ' ' !in b by {
      assert forall i | 0 <= i < |b| :: b[i] != ' ';
    }
    ReplaceConcat(a + " ", b, ' ', '_');
    ReplaceConcat(a, " ", ' ', '_');
    ReplaceAbsent(a, ' ', '_');
    ReplaceAbsent(b, ' ', '_');
    assert ReplaceChar(" ", ' ', '_') == "_";
  }

  /** Text that is already a key normalises to itself. */
  lemma NormaliseOfKey(k: string)
    requires ' ' !in k
    requires forall i | 0 <= i < |k| :: !('A' <= k[i] <= 'Z')
    ensures Normalise(k) == k
  {
    ReplaceAbsent(k, ' ', '_');
    LowerOfLower(k);
  }

  /** Normalising a feature key again leaves it as it is. */
  lemma FeatureKeyIdempotent(text: string)
    ensures KeyOf(Features, KeyOf(Features, text)) == KeyOf(Features, text)
  {
    var k := KeyOf(Features, text);
    assert Strip(k) == k by {
      if k != [] {
        StripTrimmed(k);
      }
    }
    assert Normalise(k) == k by {
      NormaliseOfKey(k);
    }
  }

  /** The entry an item contributes to a table under `rule`: its key and its
      stripped value text (`None` when the value element is missing), or no
      entry at all. */
  function EntryOf(sec: Section, rule: Rule, it: Item): (e: Option<(string, Option<string>)>)
    ensures e.Some? ==> it.labelText.Some? && e.value.0 == KeyOf(sec, it.labelText.value) && e.value.0 != ""
    ensures e.Some? ==> e.value.1 == MapOption(it.valueText, Strip)
    ensures e.Some? && rule == KeyAndValue ==> e.value.1.Some? && e.value.1.value != ""
  {
    match it.labelText
    case None => None
    case Some(l) =>
      var k := KeyOf(sec, l);
      var v := MapOption(it.valueText, Strip);
      if k == "" then None
      else if rule == KeyAndValue && (v.None? || v.value == "") then None
      else Some((k, v))
  }

  // ---------------------------------------------------------------------
  // A dictionary filled by a loop over items, in general

  /** Entry `e` is stored under key `k`. */
  predicate Stores<V>(e: Option<(string, V)>, k: string) {
    e.Some? && e.value.0 == k
  }

  /** The dictionary left by a loop that, for each item in order, stores the
      item's entry (if any), replacing what was under the same key. */
  function Tabulate<V>(items: seq<Item>, entry: Item -> Option<(string, V)>): (m: map<string, V>)
    ensures |m| <= |items|
    decreases |items|
  {
    if items == [] then map[]
    else
      var m := Tabulate(items[..|items| - 1], entry);
      match entry(items[|items| - 1])
      case None => m
      case Some(kv) => m[kv.0 := kv.1]
  }

  /** Item `i` is the last one stored under `k`. */
  predicate IsLast<V>(items: seq<Item>, entry: Item -> Option<(string, V)>, i: int, k: string) {
    && 0 <= i < |items|
    && Stores(entry(items[i]), k)
    && forall j | i < j < |items| :: !Stores(entry(items[j]), k)
  }

  /** A key is in the dictionary exactly when some item is stored under it. */
  lemma {:induction false} TabulateKeys<V>(items: seq<Item>, entry: Item -> Option<(string, V)>, k: string)
    ensures k in Tabulate(items, entry) <==> exists i | 0 <= i < |items| :: Stores(entry(items[i]), k)
    decreases |items|
  {
    if items != [] {
      var n := |items| - 1;
      var front := items[..n];
      TabulateKeys(front, entry, k);
      assert forall i | 0 <= i < n :: front[i] == items[i];
    }
  }

  /** The value under a key is that of the LAST item stored under it. */
  lemma {:induction false} TabulateLastValue<V>(items: seq<Item>, entry: Item -> Option<(string, V)>, k: string, i: int)
    requires IsLast(items, entry, i, k)
    ensures k in Tabulate(items, entry) && Tabulate(items, entry)[k] == entry(items[i]).value.1
    decreases |items|
  {
    var n := |items| - 1;
    var front := items[..n];
    if i < n {
      assert forall j | 0 <= j < n :: front[j] == items[j];
      assert IsLast(front, entry, i, k);
      TabulateLastValue(front, entry, k, i);
      assert !Stores(entry(items[n]), k);
    }
  }

  /** A key is in the dictionary exactly when some item is stored under it,
      and its value is that of the LAST such item. */
  lemma TabulateLastWins<V>(items: seq<Item>, entry: Item -> Option<(string, V)>, k: string)
    ensures k in Tabulate(items, entry) <==> exists i | 0 <= i < |items| :: Stores(entry(items[i]), k)
    ensures forall i | IsLast(items, entry, i, k) :: k in Tabulate(items, entry) && Tabulate(items, entry)[k] == entry(items[i]).value.1
  {
    TabulateKeys(items, entry, k);
    forall i | IsLast(items, entry, i, k)
      ensures k in Tabulate(items, entry) && Tabulate(items, entry)[k] == entry(items[i]).value.1
    {
      TabulateLastValue(items, entry, k, i);
    }
  }

  /** Two entry rules that agree on every item fill the same dictionary. */
  lemma {:induction false} TabulateAgree<V>(items: seq<Item>, e1: Item -> Option<(string, V)>, e2: Item -> Option<(string, V)>)
    requires forall i | 0 <= i < |items| :: e1(items[i]) == e2(items[i])
    ensures Tabulate(items, e1) == Tabulate(items, e2)
    decreases |items|
  {
    if items != [] {
      var n := |items| - 1;
      assert forall i | 0 <= i < n :: items[..n][i] == items[i];
      TabulateAgree(items[..n], e1, e2);
    }
  }

  /** When each item that `e1` stores is stored by `e2` under the same key,
      `e1`'s dictionary has no key that `e2`'s lacks. */
  lemma {:induction false} TabulateKeysSubset<V, W>(items: seq<Item>, e1: Item -> Option<(string, V)>, e2: Item -> Option<(string, W)>)
    requires forall i | 0 <= i < |items| :: e1(items[i]).Some? ==> e2(items[i]).Some? && e2(items[i]).value.0 == e1(items[i]).value.0
    ensures Tabulate(items, e1).Keys <= Tabulate(items, e2).Keys
    decreases |items|
  {
    if items != [] {
      var n := |items| - 1;
      assert forall i | 0 <= i < n :: items[..n][i] == items[i];
      TabulateKeysSubset(items[..n], e1, e2);
    }
  }

  /** Every value stored satisfies what every entry's value satisfies. */
  lemma {:induction false} TabulateValues<V>(items: seq<Item>, entry: Item -> Option<(string, V)>, p: V -> bool)
    requires forall i | 0 <= i < |items| :: entry(items[i]).Some? ==> p(entry(items[i]).value.1)
    ensures forall k | k in Tabulate(items, entry) :: p(Tabulate(items, entry)[k])
    decreases |items|
  {
    if items != [] {
      var n := |items| - 1;
      assert forall i | 0 <= i < n :: items[..n][i] == items[i];
      TabulateValues(items[..n], entry, p);
    }
  }

  // ---------------------------------------------------------------------
  // The details dictionaries

  /** The dictionary the loop over one section's items leaves behind. */
  function Table(sec: Section, rule: Rule, items: seq<Item>): map<string, Option<string>> {
    Tabulate(items, (it: Item) => EntryOf(sec, rule, it))
  }

  predicate StoresUnder(sec: Section, rule: Rule, it: Item, k: string) {
    Stores(EntryOf(sec, rule, it), k)
  }

  /** Item `i` is the last one stored under `k`. */
  predicate IsLastStore(sec: Section, rule: Rule, items: seq<Item>, i: int, k: string) {
    && 0 <= i < |items|
    && StoresUnder(sec, rule, items[i], k)
    && forall j | i < j < |items| :: !StoresUnder(sec, rule, items[j], k)
  }

  /** `dict.get(k)`: the stored value, `None` when `k` is absent. */
  function Lookup(m: map<string, Option<string>>, k: string): Option<string> {
    if k in m then m[k] else None
  }

  /** A details key is present exactly when some item of the section is
      stored under it, and holds the stripped value of the last such item. */
  lemma TableLastWins(sec: Section, rule: Rule, items: seq<Item>, k: string)
    ensures k in Table(sec, rule, items) <==> exists i | 0 <= i < |items| :: StoresUnder(sec, rule, items[i], k)
    ensures forall i | IsLastStore(sec, rule, items, i, k) ::
      k in Table(sec, rule, items) && Table(sec, rule, items)[k] == MapOption(items[i].valueText, Strip)
  {
    var entry := (it: Item) => EntryOf(sec, rule, it);
    TabulateLastWins(items, entry, k);
    assert forall i | 0 <= i < |items| :: IsLastStore(sec, rule, items, i, k) ==> IsLast(items, entry, i, k);
  }

  /** `dict.get(k)` on a details table reads the stripped value of the last
      item stored under `k`. */
  lemma LookupLastItem(sec: Section, rule: Rule, items: seq<Item>, i: nat, k: string)
    requires IsLastStore(sec, rule, items, i, k)
    ensures Lookup(Table(sec, rule, items), k) == MapOption(items[i].valueText, Strip)
  {
    TableLastWins(sec, rule, items, k);
  }

  /** `dict.get(k)` on a details table is `None` when no item is stored under `k`. */
  lemma LookupAbsent(sec: Section, rule: Rule, items: seq<Item>, k: string)
    requires forall i | 0 <= i < |items| :: !StoresUnder(sec, rule, items[i], k)
    ensures Lookup(Table(sec, rule, items), k) == None
  {
    TableLastWins(sec, rule, items, k);
  }

  /** The legacy rule never stores a missing or empty value. */
  lemma LegacyValuesPresent(sec: Section, items: seq<Item>)
    ensures forall k | k in Table(sec, KeyAndValue, items) :: Table(sec, KeyAndValue, items)[k].Some? && Table(sec, KeyAndValue, items)[k].value != ""
  {
    TabulateValues(items, (it: Item) => EntryOf(sec, KeyAndValue, it), (v: Option<string>) => v.Some? && v.value != "");
  }

  /** Every key the legacy rule stores, the current rule stores too. */
  lemma LegacyKeysAreCurrentKeys(sec: Section, items: seq<Item>)
    ensures Table(sec, KeyAndValue, items).Keys <= Table(sec, KeyOnly, items).Keys
  {
    TabulateKeysSubset(items, (it: Item) => EntryOf(sec, KeyAndValue, it), (it: Item) => EntryOf(sec, KeyOnly, it));
  }

  /** The item has a value whenever its label gives a key. */
  predicate Complete(sec: Section, it: Item) {
    it.labelText.Some? && KeyOf(sec, it.labelText.value) != "" ==> it.valueText.Some? && Strip(it.valueText.value) != ""
  }

  /** When every keyed item carries a non-empty value, both rules build the
      same table. */
  lemma RulesAgreeOnCompleteItems(sec: Section, items: seq<Item>)
    requires forall i | 0 <= i < |items| :: Complete(sec, items[i])
    ensures Table(sec, KeyOnly, items) == Table(sec, KeyAndValue, items)
  {
    TabulateAgree(items, (it: Item) => EntryOf(sec, KeyOnly, it), (it: Item) => EntryOf(sec, KeyAndValue, it));
  }

  /** The loop that fills a details dictionary, one item at a time. */
  method BuildTable(sec: Section, rule: Rule, items: seq<Item>) returns (m: map<string, Option<string>>)
    ensures m == Table(sec, rule, items)
  {
    m := map[];
    var i := 0;
    while i < |items|
      invariant 0 <= i <= |items|
      invariant m == Table(sec, rule, items[..i])
    {
      assert items[..i + 1][..i] == items[..i];
      assert items[..i + 1][i] == items[i];
      match EntryOf(sec, rule, items[i]) {
        case None =>
        case Some(kv) => m := m[kv.0 := kv.1];
      }
      i := i + 1;
    }
    assert items[..i] == items;
  }
}
