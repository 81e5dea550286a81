/**
 * The resolution lifecycle of the `AlephIIIF` component (src/components/AlephIIIF.tsx,
 * lines 50-130): each change of the manifest key starts a run that resets the state,
 * resolves the manifest inline, directly or through one fetch, and records a model URL or
 * an error message only while the run is still mounted. The render shows the error, the
 * loading indicator or the 3D stage, in that order of precedence.
 */
module Resolver {
  import opened Wrappers
  import opened ModelUrl
  import opened Extraction

  /** The `manifest` prop: a location string, or an inline document. A string prop is always a
      `Location`, so the `doc` of an `Inline` manifest is never a `JString`. */
  datatype Manifest = Location(url: string) | Inline(doc: Json)

  /** A value thrown inside a run: an `Error` instance carries a message, anything else does not. */
  datatype Thrown = ErrorValue(message: string) | OtherValue

  /** What `fetch(manifest)` followed by `response.json()` comes to: a response that is not
      ok, a parsed body, or a thrown value (a network failure or a body that does not parse). */
  datatype FetchOutcome = NotOk | Ok(body: Json) | Throws(thrown: Thrown)

  const NotFoundMessage: string := "IIIF manifestist ei leitud glTF/GLB faili."
  const FetchFailedMessage: string := "Manifesti laadimine ebaonnestus."
  const ViewerErrorMessage: string := "3D vaaturi viga."

  /** How a run ends: a model URL for `setSrc`, or a message for `setError`. */
  datatype Settled = Found(src: string) | Failed(message: string)

  /** What a run does right after its reset: it settles at once, or it fetches `url`. */
  datatype Step = Settle(outcome: Settled) | Fetch(url: string)

  /** The message the `catch` block records (line 99). */
  function CaughtMessage(t: Thrown): (msg: string)
    ensures t.OtherValue? ==> msg == ViewerErrorMessage
    ensures t.ErrorValue? ==> msg == t.message
  {
    match t
    case ErrorValue(message) => message
    case OtherValue => ViewerErrorMessage
  }

  /** Searching a manifest document (lines 74-78 and 92-96): a non-empty acceptable model
      URL, or the not-found message exactly when the document holds no acceptable URL. */
  function SearchOutcome(doc: Json): (r: Settled)
    ensures r.Found? ==> r.src != "" && Acceptable(r.src, doc)
    ensures r.Found? ==> Some(r.src) == Extract(doc)
    ensures r.Failed? <==> forall u :: !Acceptable(u, doc)
    ensures r.Failed? ==> r.message == NotFoundMessage
  {
    var found := Extract(doc);
    ExtractNoneIff(doc);
    if Truthy(found) then
      ExtractSound(doc, found.value);
      Found(found.value)
    else
      Failed(NotFoundMessage)
  }

  /** The part of a run before any `await` (lines 73-87). A location is fetched exactly when it
      is not itself a model URL; an inline document is searched without a fetch. */
  function Begin(m: Manifest): (st: Step)
    ensures st.Fetch? <==> m.Location? && !IsModelUrl(m.url)
    ensures st.Fetch? ==> st.url == m.url
    ensures st.Settle? && st.outcome.Found? ==>
      st.outcome.src != "" &&
      (m.Location? ==> st.outcome.src == m.url && HasModelExtension(m.url)) &&
      (m.Inline? ==> Acceptable(st.outcome.src, m.doc) && Some(st.outcome.src) == Extract(m.doc))
    ensures st.Settle? && st.outcome.Failed? <==> m.Inline? && forall u :: !Acceptable(u, m.doc)
    ensures st.Settle? && st.outcome.Failed? ==> st.outcome.message == NotFoundMessage
  {
    match m
    case Inline(doc) => Settle(SearchOutcome(doc))
    case Location(url) =>
      IsModelUrlSpec(url);
      if IsModelUrl(url) then Settle(Found(url)) else Fetch(url)
  }

  /** How a run that fetched ends (lines 87-100): a response that is not ok, a thrown value and
      a body without a model URL each end in an error; only a body holding an acceptable model
      URL ends in a source. */
  function Finish(o: FetchOutcome): (r: Settled)
    ensures o.NotOk? ==> r == Failed(FetchFailedMessage)
    ensures o.Throws? ==> r == Failed(CaughtMessage(o.thrown))
    ensures r.Found? <==> o.Ok? && exists u :: Acceptable(u, o.body)
    ensures r.Found? ==> o.Ok? && r.src != "" && Acceptable(r.src, o.body)
    ensures o.Ok? && r.Found? ==> Some(r.src) == Extract(o.body)
    ensures o.Ok? && r.Failed? ==> r.message == NotFoundMessage
  {
    match o
    case NotOk => Failed(FetchFailedMessage)
    case Ok(body) => SearchOutcome(body)
    case Throws(thrown) => Failed(CaughtMessage(thrown))
  }

  /** What the component renders. */
  datatype View = ErrorView(message: string) | LoadingView | StageView(src: string, overlay: bool)

  /** The render branches (lines 111-128): a truthy error wins, then a missing source shows
      the loading indicator, and otherwise the stage, overlaid until the model has loaded. */
  function Present(error: Option<string>, src: Option<string>, isReady: bool): (v: View)
    ensures v.ErrorView? <==> Truthy(error)
    ensures v.ErrorView? ==> v.message == error.value
    ensures v.LoadingView? <==> !Truthy(error) && !Truthy(src)
    ensures v.StageView? <==> !Truthy(error) && Truthy(src)
    ensures v.StageView? ==> v.src == src.value && v.overlay == !isReady
  {
    if Truthy(error) then ErrorView(error.value)
    else if !Truthy(src) then LoadingView
    else StageView(src.value, !isReady)
  }

  /** One mounted `AlephIIIF` component. Runs are numbered 1, 2, ... in the order the effect
      starts them; the `isMounted` flag of run `g` is `Mounted(g)`. */
  class AlephIIIF {
    /** The host's `JSON.stringify`, used only to key inline documents. */
    const stringify: Json -> string

    var src: Option<string>
    var error: Option<string>
    var isReady: bool

    /** The manifest key of the last run started. */
    var key: Option<string>
    /** The number of the last run started (0 before the first). */
    var gen: nat
    /** Whether the last run has not been cleaned up. */
    var live: bool
    /** The runs whose fetch has not settled yet. */
    var inFlight: set<nat>

    ghost predicate Valid()
      reads this
    {
      (key.None? <==> gen == 0) && (gen == 0 ==> !live) &&
      (forall g :: g in inFlight ==> 1 <= g <= gen) &&
      (src.Some? ==> src.value != "" && error.None?) &&
      (gen in inFlight ==> src.None? && error.None?)
    }

    /** The `isMounted` flag of run `g`: only the last run, and only until its cleanup. */
    predicate Mounted(g: nat): (r: bool)
      reads this
      ensures r ==> g == gen
      ensures Valid() && r ==> 1 <= g && key.Some?
    {
      live && g == gen
    }

    /** The effect's dependency (lines 59-62): the string itself, or the serialised document. */
    function KeyOf(m: Manifest): (k: string)
      ensures m.Location? ==> k == m.url
      ensures m.Inline? ==> k == stringify(m.doc)
    {
      match m
      case Location(url) => url
      case Inline(doc) => stringify(doc)
    }

    function Display(): (v: View)
      reads this
    {
      Present(error, src, isReady)
    }

    /** The initial state (lines 55-57): no source, no error, not ready, no run yet. */
    constructor (stringify: Json -> string)
      ensures Valid() && this.stringify == stringify
      ensures src.None? && error.None? && !isReady
      ensures key.None? && gen == 0 && !live && inFlight == {}
      ensures Display() == LoadingView
    {
      this.stringify := stringify;
      src, error, isReady := None, None, false;
      key, gen, live, inFlight := None, 0, false, {};
    }

    /** A render with prop `m` (lines 59-109). When its key equals the last run's nothing
        happens. Otherwise the last run is cleaned up and a new run starts: it resets
        `error`, `src` and `isReady`, then either records its outcome at once or issues a
        fetch of the location, returned in `fetch`. */
    method Render(m: Manifest) returns (fetch: Option<string>)
      requires Valid() && (live || gen == 0)
      modifies this
      ensures Valid()
      ensures old(key) == Some(KeyOf(m)) ==> unchanged(this) && fetch.None?
      ensures old(key) != Some(KeyOf(m)) ==>
        gen == old(gen) + 1 && live && key == Some(KeyOf(m)) && !isReady &&
        Outcome(Begin(m), fetch, old(inFlight))
      ensures forall g: nat :: g <= old(gen) && !old(Mounted(g)) ==> !Mounted(g)
    {
      var k := KeyOf(m);
      if key == Some(k) {
        return None;
      }
      live := false;  // the cleanup of the previous run
      fetch := Start(m, k);
    }

    /** The state a run leaves right after its first step `st`: a pending fetch shows the
        loading indicator, an immediate model URL shows the stage with its overlay, and an
        immediate failure records its message. */
    ghost predicate Outcome(st: Step, fetch: Option<string>, before: set<nat>)
      reads this
    {
      match st
      case Fetch(url) =>
        fetch == Some(url) && src.None? && error.None? && inFlight == before + {gen} &&
        Display() == LoadingView
      case Settle(Found(u)) =>
        fetch.None? && src == Some(u) && error.None? && inFlight == before &&
        Display() == StageView(u, true)
      case Settle(Failed(msg)) =>
        fetch.None? && src.None? && error == Some(msg) && inFlight == before &&
        Display() == ErrorView(msg)
    }

    /** The body of the effect (lines 64-104): a new run with key `k` starts and takes its first step. */
    method Start(m: Manifest, k: string) returns (fetch: Option<string>)
      requires Valid() && !live
      modifies this
      ensures Valid()
      ensures gen == old(gen) + 1 && live && key == Some(k) && !isReady
      ensures Outcome(Begin(m), fetch, old(inFlight))
    {
      gen, live, key := gen + 1, true, Some(k);
      error, src, isReady := None, None, false;
      fetch := None;
      var st := Begin(m);
      if st.Fetch? {
        inFlight := inFlight + {gen};
        fetch := Some(st.url);
      } else if st.outcome.Found? {
        if Mounted(gen) { src := Some(st.outcome.src); }
      } else {
        if Mounted(gen) { error := Some(st.outcome.message); }
      }
    }

    /** The fetch of run `g` settles with `o` (lines 87-100). The outcome is recorded only when
        run `g` is still mounted; a stale run changes nothing that is displayed. */
    method Complete(g: nat, o: FetchOutcome)
      requires Valid() && g in inFlight
      modifies this
      ensures Valid()
      ensures inFlight == old(inFlight) - {g}
      ensures gen == old(gen) && live == old(live) && key == old(key) && isReady == old(isReady)
      ensures !old(Mounted(g)) ==> src == old(src) && error == old(error)
      ensures old(Mounted(g)) ==>
        match Finish(o)
        case Found(u) => src == Some(u) && error.None? && Display() == StageView(u, !isReady)
        case Failed(msg) =>
          error == Some(msg) && src.None? &&
          Display() == if msg != "" then ErrorView(msg) else LoadingView
      ensures forall h :: Mounted(h) <==> old(Mounted(h))
    {
      inFlight := inFlight - {g};
      match Finish(o) {
        case Found(u) =>
          if Mounted(g) { src := Some(u); }
        case Failed(msg) =>
          if Mounted(g) { error := Some(msg); }
      }
    }

    /** The component is dismissed: the cleanup of the last run (line 107). */
    method Unmount()
      requires Valid()
      modifies this`live
      ensures Valid() && !live
      ensures forall g :: !Mounted(g)
    {
      live := false;
    }

    /** The viewer's `onLoad` (line 126). The callback belongs to an external viewer, which
        may call it at any time, even after a reset: it always sets `isReady`. On the stage it
        removes the loading overlay; on any other view it changes nothing visible, but a later
        model of the same run is then shown without its overlay. */
    method OnLoad()
      requires Valid()
      modifies this`isReady
      ensures Valid() && isReady
      ensures old(Display()).StageView? ==> Display() == StageView(old(Display()).src, false)
      ensures !old(Display()).StageView? ==> Display() == old(Display())
    {
      isReady := true;
    }
  }

  /** Two locations in quick succession: the second run's fetch settles first with a body that
      holds a model URL, and the first run's fetch settles afterwards, whatever its outcome.
      The stage keeps showing the second run's model. */
  method SupersededFetchIsIgnored(a: string, b: string, body: Json, late: FetchOutcome)
    returns (shown: View)
    requires a != b && !IsModelUrl(a) && !IsModelUrl(b)
    requires exists u :: Acceptable(u, body)
    ensures Extract(body).Some? && shown == StageView(Extract(body).value, true)
  {
    var component := new AlephIIIF((doc: Json) => "");
    var first := component.Render(Location(a));
    var second := component.Render(Location(b));
    ExtractNoneIff(body);
    component.Complete(2, Ok(body));
    var settled := component.Display();
    component.Complete(1, late);
    shown := component.Display();
    assert shown == settled;
  }
}
