/**
 * The manifest symbol resolver: a depth-first walk of the symbol tree from the
 * global namespace that appends to a receiver list every member whose
 * documentation-comment id is in the manifest, descending only into namespaces
 * and types. Afterwards every manifest entry carried by no collected symbol is
 * reported as not found; that report never stops the run.
 */
module Resolver {
  import opened Entities

  /** The symbol has a documentation-comment id and the manifest holds it. */
  predicate Listed(s: Symbol, docIds: set<string>)
  {
    s.docId.Some? && s.docId.value in docIds
  }

  /**
   * What the walk appends, in order, for the given members of one container:
   * for each member, the member itself when it is listed, then what the walk
   * appends for the member's own members when it is a namespace or type.
   */
  function Collect(members: seq<Symbol>, docIds: set<string>): (r: seq<Symbol>)
    decreases members
  {
    if members == [] then []
    else
      var m := members[|members| - 1];
      Collect(members[..|members| - 1], docIds)
      + (if Listed(m, docIds) then [m] else [])
      + (if m.NamespaceOrType? then Collect(m.members, docIds) else [])
  }

  /** s is one of the members, or reachable through a member that is a namespace or type. */
  ghost predicate Reachable(s: Symbol, members: seq<Symbol>)
    decreases members
  {
    exists j :: 0 <= j < |members| &&
      (members[j] == s || (members[j].NamespaceOrType? && Reachable(s, members[j].members)))
  }

  lemma ReachableLast(s: Symbol, members: seq<Symbol>)
    requires members != []
    ensures var m := members[|members| - 1];
      Reachable(s, members) <==>
        Reachable(s, members[..|members| - 1]) || m == s || (m.NamespaceOrType? && Reachable(s, m.members))
  {
    var init := members[..|members| - 1];
    if Reachable(s, members) {
      var j :| 0 <= j < |members| &&
        (members[j] == s || (members[j].NamespaceOrType? && Reachable(s, members[j].members)));
      if j < |init| {
        assert init[j] == members[j];
      }
    }
    if Reachable(s, init) {
      var j :| 0 <= j < |init| &&
        (init[j] == s || (init[j].NamespaceOrType? && Reachable(s, init[j].members)));
      assert members[j] == init[j];
    }
  }

  /**
   * Soundness and completeness of the walk: a symbol is collected exactly when
   * it is reachable through namespaces and types and its id is in the manifest.
   */
  lemma {:induction false} CollectedIffReachable(members: seq<Symbol>, docIds: set<string>, s: Symbol)
    ensures s in Collect(members, docIds) <==> Reachable(s, members) && Listed(s, docIds)
    decreases members
  {
    if members != [] {
      var init, m := members[..|members| - 1], members[|members| - 1];
      CollectedIffReachable(init, docIds, s);
      if m.NamespaceOrType? {
        CollectedIffReachable(m.members, docIds, s);
      }
      ReachableLast(s, members);
    }
  }

  /** Collect over one more member appends what that member contributes. */
  lemma CollectStep(members: seq<Symbol>, i: nat, docIds: set<string>)
    requires i < |members|
    ensures var m := members[i];
      Collect(members[..i + 1], docIds) ==
        Collect(members[..i], docIds)
        + (if Listed(m, docIds) then [m] else [])
        + (if m.NamespaceOrType? then Collect(m.members, docIds) else [])
  {
    assert members[..i + 1][..i] == members[..i];
  }

  /** The receiver list, which the walk only ever appends to. */
  class SymbolList {
    var items: seq<Symbol>

    constructor ()
      ensures items == []
    {
      items := [];
    }

    method Add(s: Symbol)
      modifies this
      ensures items == old(items) + [s]
    {
      items := items + [s];
    }
  }

  /**
   * The recursive walk over one namespace or type. What was in the receiver
   * before stays in place; what the walk finds is appended after it.
   */
  method GetSymbols(container: Symbol, docIds: set<string>, receiver: SymbolList)
    requires container.NamespaceOrType?
    modifies receiver
    ensures receiver.items == old(receiver.items) + Collect(container.members, docIds)
    decreases container
  {
    var members := container.members;
    ghost var start := receiver.items;
    for i := 0 to |members|
      invariant receiver.items == start + Collect(members[..i], docIds)
    {
      var member := members[i];
      ghost var self := if Listed(member, docIds) then [member] else [];
      ghost var nested := if member.NamespaceOrType? then Collect(member.members, docIds) else [];
      ghost var before := receiver.items;
      if member.docId.Some? && member.docId.value in docIds {
        receiver.Add(member);
      }
      assert receiver.items == before + self;
      if member.NamespaceOrType? {
        GetSymbols(member, docIds, receiver);
      }
      assert receiver.items == before + self + nested;
      CollectStep(members, i, docIds);
    }
    assert members[..|members|] == members;
  }

  /** The documentation-comment ids of the collected symbols. */
  function FoundIds(symbols: seq<Symbol>): (r: set<string>)
    ensures forall e :: e in r <==> exists i :: 0 <= i < |symbols| && symbols[i].docId == Some(e)
  {
    set i | 0 <= i < |symbols| && symbols[i].docId.Some? :: symbols[i].docId.value
  }

  /**
   * The report of manifest entries that no collected symbol carries. The order
   * of the printed lines follows the manifest's own enumeration order, which is
   * not part of the model: the result is the set of reported entries.
   */
  method ReportUnmatched(manifest: set<string>, symbols: seq<Symbol>) returns (notFound: set<string>)
    ensures forall e :: e in notFound <==>
      e in manifest && forall i :: 0 <= i < |symbols| ==> symbols[i].docId != Some(e)
  {
    var foundIds := FoundIds(symbols);
    var rest := manifest;
    notFound := {};
    while rest != {}
      invariant rest <= manifest
      invariant forall e :: e in notFound <==> e in manifest && e !in rest && e !in foundIds
      decreases rest
    {
      var entry :| entry in rest;
      if entry !in foundIds {
        notFound := notFound + {entry};
      }
      rest := rest - {entry};
    }
  }

  /**
   * On the walk's own result, an entry is reported as not found exactly when no
   * symbol reachable through namespaces and types carries it.
   */
  lemma NotFoundIffUnreachable(root: Symbol, manifest: set<string>, e: string)
    requires root.NamespaceOrType?
    requires e in manifest
    ensures var symbols := Collect(root.members, manifest);
      (forall i :: 0 <= i < |symbols| ==> symbols[i].docId != Some(e)) <==>
      (forall s :: Reachable(s, root.members) ==> s.docId != Some(e))
  {
    var symbols := Collect(root.members, manifest);
    if exists s :: Reachable(s, root.members) && s.docId == Some(e) {
      var s :| Reachable(s, root.members) && s.docId == Some(e);
      CollectedIffReachable(root.members, manifest, s);
      var i :| 0 <= i < |symbols| && symbols[i] == s;
    }
    if exists i :: 0 <= i < |symbols| && symbols[i].docId == Some(e) {
      var i :| 0 <= i < |symbols| && symbols[i].docId == Some(e);
      CollectedIffReachable(root.members, manifest, symbols[i]);
    }
  }
}
