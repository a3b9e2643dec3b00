/** The colour table `write_white_config` of wxgui/app.cpp writes into a new
    "white" profile on first run.  The file store and cfg_write_color's
    encoding are not part of this model: the profile is a map from key to
    colour, and each write sets one key. */
module WhiteConfig {

  /** A wxColour(red, green, blue). */
  datatype Colour = Colour(red: nat, green: nat, blue: nat)

  datatype Entry = Entry(key: string, colour: Colour)

  const White := Colour(255, 255, 255)
  const Black := Colour(0, 0, 0)
  const DataGreen := Colour(0, 127, 0)

  /** The writes, in the order of the source. */
  const WhiteEntries: seq<Entry> := [
    Entry("MainPlot/Colors/bg", White),
    Entry("MainPlot/Colors/model", Colour(0, 0, 127)),
    Entry("MainPlot/Colors/xAxis", Black),
    Entry("MainPlot/Colors/data/0", DataGreen),
    Entry("MainPlot/Colors/peak/0", Colour(255, 89, 89)),
    Entry("AuxPlot_0/Colors/bg", White),
    Entry("AuxPlot_0/Colors/active_data", DataGreen),
    Entry("AuxPlot_0/Colors/xAxis", Black),
    Entry("AuxPlot_1/Colors/bg", White),
    Entry("AuxPlot_1/Colors/active_data", DataGreen),
    Entry("AuxPlot_1/Colors/xAxis", Black),
    Entry("OutputWin/Colors/normal", Colour(51, 51, 51)),
    Entry("OutputWin/Colors/warn", Colour(172, 0, 0)),
    Entry("OutputWin/Colors/quot", Colour(46, 58, 107)),
    Entry("OutputWin/Colors/input", Colour(0, 76, 9)),
    Entry("OutputWin/Colors/bg", White)
  ]

  /** The profile after writing es, one entry after the other, into store. */
  function WriteAll(store: map<string, Colour>, es: seq<Entry>): (r: map<string, Colour>)
    ensures r.Keys == store.Keys + set e | e in es :: e.key
    decreases |es|
  {
    if es == [] then store
    else
      var r := WriteAll(store[es[0].key := es[0].colour], es[1..]);
      assert (set e | e in es :: e.key) == {es[0].key} + set e | e in es[1..] :: e.key;
      r
  }

  ghost predicate DistinctKeys(es: seq<Entry>)
  {
    forall i, j :: 0 <= i < j < |es| ==> es[i].key != es[j].key
  }

  /** With distinct keys no write is overwritten: each key ends up with the
      colour written for it. */
  lemma {:induction false} WriteAllLookup(store: map<string, Colour>, es: seq<Entry>, i: nat)
    requires DistinctKeys(es) && i < |es|
    ensures es[i].key in WriteAll(store, es) && WriteAll(store, es)[es[i].key] == es[i].colour
    decreases |es|
  {
    if i > 0 {
      WriteAllLookup(store[es[0].key := es[0].colour], es[1..], i - 1);
    } else {
      WriteAllUntouched(store[es[0].key := es[0].colour], es[1..], es[0].key);
    }
  }

  /** A key none of the entries names keeps its colour. */
  lemma {:induction false} WriteAllUntouched(store: map<string, Colour>, es: seq<Entry>, k: string)
    requires k in store && forall j :: 0 <= j < |es| ==> es[j].key != k
    ensures WriteAll(store, es)[k] == store[k]
    decreases |es|
  {
    if es != [] {
      WriteAllUntouched(store[es[0].key := es[0].colour], es[1..], k);
    }
  }

  lemma WhiteKeysDistinct()
    ensures DistinctKeys(WhiteEntries)
  {
  }

  /** With distinct keys the profile holds the listed keys and no others,
      each with the colour written for it. */
  lemma WriteAllDistinct(es: seq<Entry>)
    requires DistinctKeys(es)
    ensures var profile := WriteAll(map[], es);
            |profile.Keys| == |es| &&
            forall i :: 0 <= i < |es| ==> es[i].key in profile && profile[es[i].key] == es[i].colour
  {
    forall i | 0 <= i < |es|
      ensures es[i].key in WriteAll(map[], es) && WriteAll(map[], es)[es[i].key] == es[i].colour
    {
      WriteAllLookup(map[], es, i);
    }
    DistinctKeysCount(es);
  }

  /** A fresh white profile holds exactly the 16 listed keys, each with its
      listed colour. */
  lemma WhiteProfile()
    ensures var profile := WriteAll(map[], WhiteEntries);
            |profile.Keys| == 16 &&
            forall i :: 0 <= i < |WhiteEntries| ==>
              WhiteEntries[i].key in profile && profile[WhiteEntries[i].key] == WhiteEntries[i].colour
  {
    WhiteKeysDistinct();
    WriteAllDistinct(WhiteEntries);
  }

  lemma {:induction false} DistinctKeysCount(es: seq<Entry>)
    requires DistinctKeys(es)
    ensures |set e | e in es :: e.key| == |es|
    decreases |es|
  {
    if es != [] {
      DistinctKeysCount(es[1..]);
      var rest := set e | e in es[1..] :: e.key;
      assert (set e | e in es :: e.key) == {es[0].key} + rest;
      assert es[0].key !in rest;
    }
  }
}
