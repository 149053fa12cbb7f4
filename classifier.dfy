/**
 * The annotation classifier: for every collected symbol, every attribute
 * application whose attribute class has the metadata name
 * EditorBrowsableAttribute contributes the location of its enclosing attribute
 * list, and marks the symbol as processed ("Found"). Symbols never marked are
 * the "Missing" ones, listed in collection order.
 *
 * A processed symbol is identified by its position in the collected list: the
 * source keeps symbol objects in a set by reference, and the walk collects each
 * tree node once.
 */
module Classifier {
  import opened Entities

  const MarkerName: string := "EditorBrowsableAttribute"

  predicate IsMarker(a: Attribute)
  {
    a.className == MarkerName
  }

  predicate HasMarker(s: Symbol)
  {
    exists j :: 0 <= j < |s.attributes| && IsMarker(s.attributes[j])
  }

  /** The attribute-list locations of the marker applications, in attribute order. */
  function MarkerSites(attrs: seq<Attribute>): (r: seq<Location>)
    ensures |r| <= |attrs|
    decreases |attrs|
  {
    if attrs == [] then []
    else
      var init, a := attrs[..|attrs| - 1], attrs[|attrs| - 1];
      MarkerSites(init) + (if IsMarker(a) then [a.listLocation] else [])
  }

  /** The locations recorded for the symbols, symbol by symbol. */
  function AllMarkerSites(symbols: seq<Symbol>): (r: seq<Location>)
    decreases |symbols|
  {
    if symbols == [] then []
    else AllMarkerSites(symbols[..|symbols| - 1]) + MarkerSites(symbols[|symbols| - 1].attributes)
  }

  /** The positions of the symbols that carry the marker. */
  function MarkedIndices(symbols: seq<Symbol>): (r: set<nat>)
    ensures forall i :: i in r ==> i < |symbols|
    decreases |symbols|
  {
    if symbols == [] then {}
    else
      var n := |symbols| - 1;
      MarkedIndices(symbols[..n]) + (if HasMarker(symbols[n]) then {n} else {})
  }

  /** A position is marked exactly when the symbol there carries the marker. */
  lemma {:induction false} MarkedIndicesMembers(symbols: seq<Symbol>)
    ensures forall i :: i in MarkedIndices(symbols) <==> 0 <= i < |symbols| && HasMarker(symbols[i])
    decreases |symbols|
  {
    if symbols != [] {
      var n := |symbols| - 1;
      MarkedIndicesMembers(symbols[..n]);
      assert forall i :: 0 <= i < n ==> symbols[..n][i] == symbols[i];
    }
  }

  /** The symbols whose position is not in processed, in order. */
  function Missing(symbols: seq<Symbol>, processed: set<nat>): (r: seq<Symbol>)
    ensures |r| <= |symbols|
    decreases |symbols|
  {
    if symbols == [] then []
    else
      var n := |symbols| - 1;
      Missing(symbols[..n], processed) + (if n in processed then [] else [symbols[n]])
  }

  lemma MarkerSitesStep(attrs: seq<Attribute>, j: nat)
    requires j < |attrs|
    ensures MarkerSites(attrs[..j + 1]) ==
      MarkerSites(attrs[..j]) + (if IsMarker(attrs[j]) then [attrs[j].listLocation] else [])
  {
    assert attrs[..j + 1][..j] == attrs[..j];
  }

  /** Some attribute before position j is a marker. */
  predicate MarkedBefore(attrs: seq<Attribute>, j: nat)
    requires j <= |attrs|
  {
    exists x :: 0 <= x < j && IsMarker(attrs[x])
  }

  /**
   * The inner loop, over the attributes of the symbol at position i: each
   * marker application appends its list location, and marks position i.
   */
  method ScanAttributes(attrs: seq<Attribute>, i: nat, locations: seq<Location>, processed: set<nat>)
    returns (locations': seq<Location>, processed': set<nat>)
    ensures locations' == locations + MarkerSites(attrs)
    ensures processed' == processed + (if MarkedBefore(attrs, |attrs|) then {i} else {})
  {
    locations', processed' := locations, processed;
    for j := 0 to |attrs|
      invariant locations' == locations + MarkerSites(attrs[..j])
      invariant processed' == processed + (if MarkedBefore(attrs, j) then {i} else {})
    {
      MarkerSitesStep(attrs, j);
      var attribute := attrs[j];
      if attribute.className == "EditorBrowsableAttribute" {
        assert IsMarker(attribute);
        locations' := locations' + [attribute.listLocation];
        processed' := processed' + {i};
      }
    }
    assert attrs[..|attrs|] == attrs;
  }

  /**
   * The outer loop, over the collected symbols. Each marker application
   * appends one location; each symbol with at least one is added to processed
   * once.
   */
  method Classify(symbols: seq<Symbol>) returns (locations: seq<Location>, processed: set<nat>)
    ensures locations == AllMarkerSites(symbols)
    ensures processed == MarkedIndices(symbols)
    ensures forall i :: i in processed <==> 0 <= i < |symbols| && HasMarker(symbols[i])
  {
    locations := [];
    processed := {};
    for i := 0 to |symbols|
      invariant locations == AllMarkerSites(symbols[..i])
      invariant processed == MarkedIndices(symbols[..i])
    {
      var symbol := symbols[i];
      locations, processed := ScanAttributes(symbol.attributes, i, locations, processed);
      assert MarkedBefore(symbol.attributes, |symbol.attributes|) == HasMarker(symbol);
      assert symbols[..i + 1][..i] == symbols[..i];
    }
    assert symbols[..|symbols|] == symbols;
    MarkedIndicesMembers(symbols);
  }

  // ---------------------------------------------------------------------------
  // Properties

  lemma {:induction false} MissingMembers(symbols: seq<Symbol>, processed: set<nat>, s: Symbol)
    ensures s in Missing(symbols, processed) <==>
      exists i :: 0 <= i < |symbols| && i !in processed && symbols[i] == s
    decreases |symbols|
  {
    if symbols != [] {
      var n := |symbols| - 1;
      var init := symbols[..n];
      MissingMembers(init, processed, s);
      var tail := if n in processed then [] else [symbols[n]];
      assert Missing(symbols, processed) == Missing(init, processed) + tail;
      assert s in Missing(symbols, processed) <==> s in Missing(init, processed) || s in tail;
      if exists i :: 0 <= i < |symbols| && i !in processed && symbols[i] == s {
        var i :| 0 <= i < |symbols| && i !in processed && symbols[i] == s;
        if i < n { assert init[i] == symbols[i]; }
      }
      if exists i :: 0 <= i < n && i !in processed && init[i] == s {
        var i :| 0 <= i < n && i !in processed && init[i] == s;
        assert symbols[i] == init[i];
      }
    }
  }

  function Below(processed: set<nat>, n: nat): (r: set<nat>)
  {
    set i | i in processed && i < n
  }

  lemma {:induction false} MissingCount(symbols: seq<Symbol>, processed: set<nat>)
    ensures |Missing(symbols, processed)| + |Below(processed, |symbols|)| == |symbols|
    decreases |symbols|
  {
    if symbols != [] {
      var n := |symbols| - 1;
      MissingCount(symbols[..n], processed);
      if n in processed {
        assert Below(processed, n + 1) == Below(processed, n) + {n};
      } else {
        assert Below(processed, n + 1) == Below(processed, n);
      }
    } else {
      assert Below(processed, 0) == {};
    }
  }

  /**
   * The partition: every collected symbol is Found (its position is processed)
   * or listed as Missing, never both and never neither; Found and Missing
   * together count every collected symbol once.
   */
  lemma Partition(symbols: seq<Symbol>, processed: set<nat>)
    requires forall i :: i in processed <==> 0 <= i < |symbols| && HasMarker(symbols[i])
    ensures forall i :: 0 <= i < |symbols| ==>
      (i in processed <==> symbols[i] !in Missing(symbols, processed))
    ensures |processed| + |Missing(symbols, processed)| == |symbols|
  {
    forall i | 0 <= i < |symbols|
      ensures i in processed <==> symbols[i] !in Missing(symbols, processed)
    {
      MissingMembers(symbols, processed, symbols[i]);
    }
    MissingCount(symbols, processed);
    assert Below(processed, |symbols|) == processed;
  }

  /** Attribute j of attrs is a marker applied in the attribute list at l. */
  predicate SiteAt(attrs: seq<Attribute>, j: int, l: Location)
  {
    0 <= j < |attrs| && IsMarker(attrs[j]) && attrs[j].listLocation == l
  }

  /**
   * Every recorded location is the attribute-list location of a marker
   * application on a collected symbol, and every such application is recorded.
   */
  lemma {:induction false} SitesAreMarkers(symbols: seq<Symbol>, l: Location)
    ensures l in AllMarkerSites(symbols) <==>
      exists i, j :: 0 <= i < |symbols| && SiteAt(symbols[i].attributes, j, l)
    decreases |symbols|
  {
    if symbols != [] {
      var n := |symbols| - 1;
      var init := symbols[..n];
      SitesAreMarkers(init, l);
      SitesOfOne(symbols[n].attributes, l);
      assert AllMarkerSites(symbols) == AllMarkerSites(init) + MarkerSites(symbols[n].attributes);
      if exists i, j :: 0 <= i < |symbols| && SiteAt(symbols[i].attributes, j, l) {
        var i, j :| 0 <= i < |symbols| && SiteAt(symbols[i].attributes, j, l);
        if i < n { assert init[i] == symbols[i]; }
      }
      if exists i, j :: 0 <= i < n && SiteAt(init[i].attributes, j, l) {
        var i, j :| 0 <= i < n && SiteAt(init[i].attributes, j, l);
        assert symbols[i] == init[i];
      }
    }
  }

  lemma {:induction false} SitesOfOne(attrs: seq<Attribute>, l: Location)
    ensures l in MarkerSites(attrs) <==> exists j :: SiteAt(attrs, j, l)
    decreases |attrs|
  {
    if attrs != [] {
      var n := |attrs| - 1;
      var init := attrs[..n];
      SitesOfOne(init, l);
      assert MarkerSites(attrs) == MarkerSites(init) + (if IsMarker(attrs[n]) then [attrs[n].listLocation] else []);
      if IsMarker(attrs[n]) && attrs[n].listLocation == l {
        assert SiteAt(attrs, n, l);
      }
      if exists j :: SiteAt(attrs, j, l) {
        var j :| SiteAt(attrs, j, l);
        if j < n { assert init[j] == attrs[j]; assert SiteAt(init, j, l); }
      }
      if exists j :: SiteAt(init, j, l) {
        var j :| SiteAt(init, j, l);
        assert attrs[j] == init[j];
        assert SiteAt(attrs, j, l);
      }
    }
  }

  /**
   * Locations are recorded per marker application, Found is counted per
   * symbol: there are at least as many locations as Found symbols.
   */
  lemma {:induction false} FoundAtMostLocations(symbols: seq<Symbol>)
    ensures |MarkedIndices(symbols)| <= |AllMarkerSites(symbols)|
    decreases |symbols|
  {
    if symbols != [] {
      var n := |symbols| - 1;
      var init := symbols[..n];
      FoundAtMostLocations(init);
      if HasMarker(symbols[n]) {
        var attrs := symbols[n].attributes;
        var j :| 0 <= j < |attrs| && IsMarker(attrs[j]);
        SitesOfOne(attrs, attrs[j].listLocation);
        assert SiteAt(attrs, j, attrs[j].listLocation);
      }
    }
  }
}
