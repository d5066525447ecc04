/**
 * `TabsComponent` and its `Tab` children: the active key, the header strip
 * built from the children that are tabs, and the rule that a tab shows its
 * content only while its key is active.
 */
module Tabs {
  import opened Js

  /** A child of the tab strip: a `Tab` element, or any other node. */
  datatype Child = TabChild(eventKey: string, title: string) | OtherChild

  datatype Header = Header(eventKey: string, title: string)

  /** `tabs`: the children that are `Tab` elements, in order, as header entries. */
  function Headers(children: seq<Child>): (r: seq<Header>)
    ensures |r| <= |children|
  {
    if |children| == 0 then []
    else
      var rest := Headers(children[1..]);
      match children[0]
      case TabChild(k, t) => [Header(k, t)] + rest
      case OtherChild => rest
  }

  /** Headers of two runs of children are the headers of each, in order. */
  lemma {:induction false} HeadersAppend(a: seq<Child>, b: seq<Child>)
    ensures Headers(a + b) == Headers(a) + Headers(b)
    decreases |a|
  {
    if |a| > 0 {
      assert (a + b)[0] == a[0] && (a + b)[1..] == a[1..] + b;
      HeadersAppend(a[1..], b);
    } else {
      assert a + b == b;
    }
  }

  /** Every header comes from a tab child. */
  lemma {:induction false} HeadersComeFromTabs(children: seq<Child>)
    ensures forall h :: h in Headers(children) ==> TabChild(h.eventKey, h.title) in children
    decreases |children|
  {
    if |children| > 0 {
      HeadersComeFromTabs(children[1..]);
      assert forall c :: c in children[1..] ==> c in children;
    }
  }

  /** Every tab child gets a header, in its place among the tabs: other children
      contribute nothing. */
  lemma {:induction false} HeadersKeepEveryTab(children: seq<Child>, i: nat)
    requires i < |children| && children[i].TabChild?
    ensures Headers(children) == Headers(children[..i])
      + [Header(children[i].eventKey, children[i].title)] + Headers(children[i + 1..])
  {
    assert children == children[..i] + [children[i]] + children[i + 1..];
    HeadersAppend(children[..i] + [children[i]], children[i + 1..]);
    HeadersAppend(children[..i], [children[i]]);
  }

  /** A strip of tabs only has one header per child. */
  lemma {:induction false} AllTabsAllHeaders(children: seq<Child>)
    requires forall i :: 0 <= i < |children| ==> children[i].TabChild?
    ensures |Headers(children)| == |children|
    ensures forall i :: 0 <= i < |children| ==>
      Headers(children)[i] == Header(children[i].eventKey, children[i].title)
    decreases |children|
  {
    if |children| > 0 {
      AllTabsAllHeaders(children[1..]);
    }
  }

  datatype TabsState = TabsState(activeKey: string)

  /** The strip opens on `defaultActiveKey`. */
  function Init(defaultActiveKey: string): TabsState {
    TabsState(defaultActiveKey)
  }

  /** A click on a header activates its key. */
  function ClickHeader(s: TabsState, h: Header): (r: TabsState)
    ensures r.activeKey == h.eventKey
  {
    TabsState(h.eventKey)
  }

  /** What a `Tab` renders: an error outside a strip, nothing while another key is active,
      its content otherwise. */
  datatype TabRender = ThrowsOutsideTabs | Hidden | Shown

  function RenderTab(context: Option<TabsState>, eventKey: string): (r: TabRender)
    ensures r == ThrowsOutsideTabs <==> context.None?
    ensures r == Shown <==> context.Some? && context.value.activeKey == eventKey
  {
    match context
    case None => ThrowsOutsideTabs
    case Some(s) => if s.activeKey != eventKey then Hidden else Shown
  }

  /** After a click on the header of tab `i`, that tab shows its content and so does
      exactly every tab sharing its key; before any click the default tab shows. */
  lemma ClickShowsThatTab(children: seq<Child>, s: TabsState, i: nat)
    requires i < |children| && children[i].TabChild?
    ensures var h := Header(children[i].eventKey, children[i].title);
      h in Headers(children)
      && RenderTab(Some(ClickHeader(s, h)), children[i].eventKey) == Shown
      && forall j :: 0 <= j < |children| && children[j].TabChild? ==>
           (RenderTab(Some(ClickHeader(s, h)), children[j].eventKey) == Shown
            <==> children[j].eventKey == children[i].eventKey)
    ensures RenderTab(Some(Init(children[i].eventKey)), children[i].eventKey) == Shown
  {
    HeadersKeepEveryTab(children, i);
  }
}
