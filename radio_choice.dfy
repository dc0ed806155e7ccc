/**
 * Choosing the radio button of the query form: the option labelled
 * "Todas las vías", else the second option of the first group that has two,
 * else the last option of the first group.
 */
module RadioChoice {
  import opened Wrappers
  import opened Text

  /** A radio input of the form: its name, value, whether it is checked, and its label text if any. */
  datatype Radio = Radio(name: string, value: string, checked: bool, text: Option<string>)

  /** What a group keeps of a radio: its value, the checked flag, and the label with a missing one read as "". */
  datatype Entry = Entry(value: string, checked: bool, text: string)

  function EntryOf(r: Radio): Entry {
    Entry(r.value, r.checked, if r.text.Some? then r.text.value else "")
  }

  /** The label test: it holds "todas las vías" once lower-cased. */
  predicate IsTodas(text: string) {
    Contains(Lower(text), "todas las v\U{ed}as")
  }

  predicate NoDup(s: seq<string>) {
    forall i, j :: 0 <= i < j < |s| ==> s[i] != s[j]
  }

  /** The names of the radios, each once, in the order they first appear. */
  function Order(rs: seq<Radio>): seq<string> {
    if rs == [] then []
    else
      var p := Order(rs[..|rs| - 1]);
      var x := rs[|rs| - 1].name;
      if x in p then p else p + [x]
  }

  /** The entries of the radios named `name`, in their order. */
  function Entries(rs: seq<Radio>, name: string): seq<Entry> {
    if rs == [] then []
    else
      var p := Entries(rs[..|rs| - 1], name);
      var r := rs[|rs| - 1];
      if r.name == name then p + [EntryOf(r)] else p
  }

  /** The value of the first entry whose label matches. */
  function TodasIn(es: seq<Entry>): Option<string> {
    if es == [] then None
    else if IsTodas(es[0].text) then Some(es[0].value)
    else TodasIn(es[1..])
  }

  /** Group by group, in the order given, the first group holding a matching label and that entry's value. */
  function SearchTodas(rs: seq<Radio>, names: seq<string>): Option<(string, string)> {
    if names == [] then None
    else
      match TodasIn(Entries(rs, names[0]))
      case Some(v) => Some((names[0], v))
      case None => SearchTodas(rs, names[1..])
  }

  /** The first group, in the order given, with at least two entries, and its second entry's value. */
  function SearchSecond(rs: seq<Radio>, names: seq<string>): Option<(string, string)> {
    if names == [] then None
    else
      var es := Entries(rs, names[0]);
      if |es| >= 2 then Some((names[0], es[1].value))
      else SearchSecond(rs, names[1..])
  }

  /** The payload `choose_second_radio_payload` returns, as one expression. */
  function Choice(rs: seq<Radio>): map<string, string> {
    if rs == [] then map[]
    else
      match SearchTodas(rs, Order(rs))
      case Some((g, v)) => map[g := v]
      case None =>
        match SearchSecond(rs, Order(rs))
        case Some((g, v)) => map[g := v]
        case None =>
          var first := rs[0].name;
          EntriesOfFirst(rs);
          var es := Entries(rs, first);
          map[first := es[|es| - 1].value]
  }

  // ---------------------------------------------------------------------------
  // Grouping

  /**
   * The order lists each name once: every radio's name is in it, nothing
   * else is, and the first radio's name comes first.
   */
  lemma {:induction false} OrderSpec(rs: seq<Radio>)
    ensures var o := Order(rs);
      && NoDup(o)
      && (forall i :: 0 <= i < |rs| ==> rs[i].name in o)
      && (forall n :: n in o ==> exists i :: 0 <= i < |rs| && rs[i].name == n)
      && (rs != [] ==> o != [] && o[0] == rs[0].name)
  {
    if rs != [] {
      var p := rs[..|rs| - 1];
      OrderSpec(p);
      assert forall i :: 0 <= i < |p| ==> p[i] == rs[i];
      if p == [] {
        assert Order(rs) == [rs[0].name];
      }
    }
  }

  /** A group holds the entry of every radio with its name, and only those. */
  lemma {:induction false} EntriesSpec(rs: seq<Radio>, name: string)
    ensures var es := Entries(rs, name);
      && (forall i :: 0 <= i < |rs| && rs[i].name == name ==> EntryOf(rs[i]) in es)
      && (forall e :: e in es ==> exists i :: 0 <= i < |rs| && rs[i].name == name && EntryOf(rs[i]) == e)
      && (es != [] ==> exists i :: 0 <= i < |rs| && rs[i].name == name)
  {
    if rs != [] {
      var p := rs[..|rs| - 1];
      EntriesSpec(p, name);
      assert forall i :: 0 <= i < |p| ==> p[i] == rs[i];
      assert forall e :: e in Entries(rs, name) ==> e in Entries(p, name) || e == EntryOf(rs[|rs| - 1]);
    }
    var es := Entries(rs, name);
    assert es != [] ==> es[0] in es;
  }

  /** The first radio's group is not empty. */
  lemma EntriesOfFirst(rs: seq<Radio>)
    requires rs != []
    ensures Entries(rs, rs[0].name) != []
  {
    EntriesSpec(rs, rs[0].name);
  }

  /** A match found is a matching entry of the group; no match means no entry of the group matches. */
  lemma {:induction false} TodasInSpec(es: seq<Entry>)
    ensures TodasIn(es).Some? ==> exists e :: e in es && IsTodas(e.text) && e.value == TodasIn(es).value
    ensures TodasIn(es).None? ==> forall e :: e in es ==> !IsTodas(e.text)
  {
    if es != [] && !IsTodas(es[0].text) {
      TodasInSpec(es[1..]);
      assert forall e :: e in es ==> e == es[0] || e in es[1..];
    }
  }

  /** The label search finds a match in a listed group, and finds none only when no listed group has one. */
  lemma {:induction false} SearchTodasSpec(rs: seq<Radio>, names: seq<string>)
    ensures var r := SearchTodas(rs, names);
      && (r.Some? ==> r.value.0 in names && TodasIn(Entries(rs, r.value.0)) == Some(r.value.1))
      && (r.None? ==> forall n :: n in names ==> TodasIn(Entries(rs, n)).None?)
  {
    if names != [] && TodasIn(Entries(rs, names[0])).None? {
      SearchTodasSpec(rs, names[1..]);
      assert forall n :: n in names ==> n == names[0] || n in names[1..];
    }
  }

  /** The second-option search finds a listed group with two entries, and finds none only when every listed group has fewer. */
  lemma {:induction false} SearchSecondSpec(rs: seq<Radio>, names: seq<string>)
    ensures var r := SearchSecond(rs, names);
      && (r.Some? ==> r.value.0 in names && |Entries(rs, r.value.0)| >= 2 && Entries(rs, r.value.0)[1].value == r.value.1)
      && (r.None? ==> forall n :: n in names ==> |Entries(rs, n)| < 2)
  {
    if names != [] && |Entries(rs, names[0])| < 2 {
      SearchSecondSpec(rs, names[1..]);
      assert forall n :: n in names ==> n == names[0] || n in names[1..];
    }
  }

  // ---------------------------------------------------------------------------
  // The loops of the source

  /** The groups of the radios, keyed by name, each holding `Entries`. */
  ghost predicate IsGrouping(rs: seq<Radio>, order: seq<string>, groups: map<string, seq<Entry>>) {
    && order == Order(rs)
    && (forall n :: n in groups <==> n in order)
    && (forall n :: n in groups ==> groups[n] == Entries(rs, n))
  }

  /**
   * `choose_second_radio_payload`: groups the radios by name in order of
   * first appearance, then searches the groups for a matching label, then
   * for a second option, and falls back to the last option of the first group.
   */
  method ChooseSecondRadioPayload(radios: seq<Radio>) returns (m: map<string, string>)
    ensures m == Choice(radios)
  {
    if |radios| == 0 {
      return map[];
    }
    var order, groups := GroupRadios(radios);
    var todas := FindTodas(radios, order, groups);
    if todas.Some? {
      return map[todas.value.0 := todas.value.1];
    }
    var second := FindSecond(radios, order, groups);
    if second.Some? {
      return map[second.value.0 := second.value.1];
    }
    var last := LastOfFirstGroup(radios, order, groups);
    m := map[last.0 := last.1];
  }

  /** The fallback: the first group's name and the value of its last entry. */
  method LastOfFirstGroup(radios: seq<Radio>, order: seq<string>, groups: map<string, seq<Entry>>) returns (r: (string, string))
    requires radios != [] && IsGrouping(radios, order, groups)
    ensures var es := Entries(radios, radios[0].name);
      es != [] && r == (radios[0].name, es[|es| - 1].value)
  {
    OrderSpec(radios);
    EntriesOfFirst(radios);
    var first := order[0];
    var es := groups[first];
    r := (first, es[|es| - 1].value);
  }

  /** The first loop: `groups` and `order` built radio by radio. */
  method GroupRadios(radios: seq<Radio>) returns (order: seq<string>, groups: map<string, seq<Entry>>)
    ensures IsGrouping(radios, order, groups)
  {
    groups := map[];
    order := [];
    for i := 0 to |radios|
      invariant IsGrouping(radios[..i], order, groups)
    {
      GroupStep(radios, i);
      var r := radios[i];
      if r.name !in groups {
        groups := groups[r.name := []];
        order := order + [r.name];
      }
      groups := groups[r.name := groups[r.name] + [EntryOf(r)]];
    }
    assert radios[..|radios|] == radios;
  }

  /** The second loop: group by group, the first entry whose label matches. */
  method FindTodas(radios: seq<Radio>, order: seq<string>, groups: map<string, seq<Entry>>) returns (r: Option<(string, string)>)
    requires IsGrouping(radios, order, groups)
    ensures r == SearchTodas(radios, order)
  {
    for k := 0 to |order|
      invariant SearchTodas(radios, order) == SearchTodas(radios, order[k..])
    {
      var v := FirstTodas(groups[order[k]]);
      if v.Some? {
        return Some((order[k], v.value));
      }
      assert order[k..][1..] == order[k + 1..];
    }
    return None;
  }

  /** The inner loop of the label search, over one group. */
  method FirstTodas(es: seq<Entry>) returns (r: Option<string>)
    ensures r == TodasIn(es)
  {
    for j := 0 to |es|
      invariant TodasIn(es) == TodasIn(es[j..])
    {
      if IsTodas(es[j].text) {
        return Some(es[j].value);
      }
      assert es[j..][1..] == es[j + 1..];
    }
    return None;
  }

  /** The third loop: the first group with a second entry. */
  method FindSecond(radios: seq<Radio>, order: seq<string>, groups: map<string, seq<Entry>>) returns (r: Option<(string, string)>)
    requires IsGrouping(radios, order, groups)
    ensures r == SearchSecond(radios, order)
  {
    for k := 0 to |order|
      invariant SearchSecond(radios, order) == SearchSecond(radios, order[k..])
    {
      var es := groups[order[k]];
      if |es| >= 2 {
        return Some((order[k], es[1].value));
      }
      assert order[k..][1..] == order[k + 1..];
    }
    return None;
  }

  /** One radio more: its name joins the order if new, and its entry joins its group only. */
  lemma GroupStep(rs: seq<Radio>, i: nat)
    requires i < |rs|
    ensures var p := rs[..i]; var r := rs[i];
      && Order(rs[..i + 1]) == (if r.name in Order(p) then Order(p) else Order(p) + [r.name])
      && Entries(rs[..i + 1], r.name) == Entries(p, r.name) + [EntryOf(r)]
      && (forall n :: n != r.name ==> Entries(rs[..i + 1], n) == Entries(p, n))
      && (r.name !in Order(p) ==> Entries(p, r.name) == [])
  {
    var p := rs[..i];
    assert rs[..i + 1][..i] == p;
    OrderSpec(p);
    EntriesSpec(p, rs[i].name);
  }

  // ---------------------------------------------------------------------------
  // What the choice means

  /** No radios, no payload; otherwise exactly one name, bound to the value of one of the radios with that name. */
  lemma ChoiceIsOneRadio(rs: seq<Radio>)
    ensures rs == [] ==> Choice(rs) == map[]
    ensures rs != [] ==> exists i :: 0 <= i < |rs| && Choice(rs) == map[rs[i].name := rs[i].value]
  {
    if rs != [] {
      var o := Order(rs);
      SearchTodasSpec(rs, o);
      SearchSecondSpec(rs, o);
      var g, e;
      if SearchTodas(rs, o).Some? {
        g := SearchTodas(rs, o).value.0;
        TodasInSpec(Entries(rs, g));
        e :| e in Entries(rs, g) && IsTodas(e.text) && e.value == SearchTodas(rs, o).value.1;
      } else if SearchSecond(rs, o).Some? {
        g := SearchSecond(rs, o).value.0;
        e := Entries(rs, g)[1];
      } else {
        g := rs[0].name;
        EntriesOfFirst(rs);
        e := Entries(rs, g)[|Entries(rs, g)| - 1];
      }
      assert e in Entries(rs, g) && Choice(rs) == map[g := e.value];
      EntriesSpec(rs, g);
      var i :| 0 <= i < |rs| && rs[i].name == g && EntryOf(rs[i]) == e;
    }
  }

  /** A group with no matching entry yields no match. */
  lemma NoTodasIn(rs: seq<Radio>, n: string)
    requires forall i :: 0 <= i < |rs| ==> !IsTodas(EntryOf(rs[i]).text)
    ensures TodasIn(Entries(rs, n)).None?
  {
    EntriesSpec(rs, n);
    TodasInSpec(Entries(rs, n));
  }

  /** When some radio is labelled "Todas las vías", a radio so labelled is the one chosen. */
  lemma ChoicePrefersTodas(rs: seq<Radio>, k: nat)
    requires k < |rs| && IsTodas(EntryOf(rs[k]).text)
    ensures exists i :: 0 <= i < |rs| && IsTodas(EntryOf(rs[i]).text) && Choice(rs) == map[rs[i].name := rs[i].value]
  {
    var o := Order(rs);
    OrderSpec(rs);
    EntriesSpec(rs, rs[k].name);
    TodasInSpec(Entries(rs, rs[k].name));
    SearchTodasSpec(rs, o);
    var g := SearchTodas(rs, o).value.0;
    TodasInSpec(Entries(rs, g));
    var e :| e in Entries(rs, g) && IsTodas(e.text) && e.value == SearchTodas(rs, o).value.1;
    EntriesSpec(rs, g);
    var i :| 0 <= i < |rs| && rs[i].name == g && EntryOf(rs[i]) == e;
  }

  /**
   * The label search goes group by group: the first group, in order of first
   * appearance, holding a matching label gives the choice, with its first
   * matching entry.
   */
  lemma ChoiceFirstTodasGroup(rs: seq<Radio>, t: nat)
    requires t < |Order(rs)| && TodasIn(Entries(rs, Order(rs)[t])).Some?
    requires forall s :: 0 <= s < t ==> TodasIn(Entries(rs, Order(rs)[s])).None?
    ensures Choice(rs) == map[Order(rs)[t] := TodasIn(Entries(rs, Order(rs)[t])).value]
  {
    SearchTodasFirst(rs, Order(rs), t);
  }

  lemma {:induction false} SearchTodasFirst(rs: seq<Radio>, names: seq<string>, t: nat)
    requires t < |names| && TodasIn(Entries(rs, names[t])).Some?
    requires forall s :: 0 <= s < t ==> TodasIn(Entries(rs, names[s])).None?
    ensures SearchTodas(rs, names) == Some((names[t], TodasIn(Entries(rs, names[t])).value))
  {
    if t > 0 {
      assert TodasIn(Entries(rs, names[0])).None?;
      assert forall s :: 0 <= s < t - 1 ==> names[1..][s] == names[s + 1];
      SearchTodasFirst(rs, names[1..], t - 1);
    }
  }

  /**
   * Without such a label, the second option of the first group (in order of
   * first appearance) that has two options is chosen.
   */
  lemma ChoiceSecondOption(rs: seq<Radio>, t: nat)
    requires forall i :: 0 <= i < |rs| ==> !IsTodas(EntryOf(rs[i]).text)
    requires t < |Order(rs)| && |Entries(rs, Order(rs)[t])| >= 2
    requires forall s :: 0 <= s < t ==> |Entries(rs, Order(rs)[s])| < 2
    ensures Choice(rs) == map[Order(rs)[t] := Entries(rs, Order(rs)[t])[1].value]
  {
    var o := Order(rs);
    forall n | n in o ensures TodasIn(Entries(rs, n)).None? {
      NoTodasIn(rs, n);
    }
    SearchTodasSpec(rs, o);
    SearchSecondFirst(rs, o, t);
  }

  lemma {:induction false} SearchSecondFirst(rs: seq<Radio>, names: seq<string>, t: nat)
    requires t < |names| && |Entries(rs, names[t])| >= 2
    requires forall s :: 0 <= s < t ==> |Entries(rs, names[s])| < 2
    ensures SearchSecond(rs, names) == Some((names[t], Entries(rs, names[t])[1].value))
  {
    if t > 0 {
      assert |Entries(rs, names[0])| < 2;
      assert forall s :: 0 <= s < t - 1 ==> names[1..][s] == names[s + 1];
      SearchSecondFirst(rs, names[1..], t - 1);
    }
  }

  /** With no such label and every name used once, the first radio is chosen. */
  lemma ChoiceFallsBackToFirst(rs: seq<Radio>)
    requires rs != []
    requires forall i :: 0 <= i < |rs| ==> !IsTodas(EntryOf(rs[i]).text)
    requires forall i, j :: 0 <= i < j < |rs| ==> rs[i].name != rs[j].name
    ensures Choice(rs) == map[rs[0].name := rs[0].value]
  {
    var o := Order(rs);
    forall n | n in o ensures TodasIn(Entries(rs, n)).None? && |Entries(rs, n)| < 2 {
      NoTodasIn(rs, n);
      EntriesOfUniqueName(rs, n);
    }
    SearchTodasSpec(rs, o);
    SearchSecondSpec(rs, o);
    EntriesOfUniqueName(rs, rs[0].name);
  }

  /** A name carried by at most one radio has at most one entry, that radio's. */
  lemma {:induction false} EntriesOfUniqueName(rs: seq<Radio>, n: string)
    requires forall i, j :: 0 <= i < j < |rs| ==> rs[i].name != rs[j].name
    ensures |Entries(rs, n)| <= 1
    ensures forall i :: 0 <= i < |rs| && rs[i].name == n ==> Entries(rs, n) == [EntryOf(rs[i])]
  {
    if rs != [] {
      var p := rs[..|rs| - 1];
      assert forall i :: 0 <= i < |p| ==> p[i] == rs[i];
      EntriesOfUniqueName(p, n);
      if rs[|rs| - 1].name == n {
        EntriesSpec(p, n);
        assert forall i :: 0 <= i < |p| ==> p[i].name != n;
      }
    }
  }
}
