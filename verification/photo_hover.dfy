/** The member photo hover swap: an image with a `data-hover` source shows that
    source while the pointer is over it and its original source otherwise. The
    original is captured once, when the listeners are attached. */
module PhotoHover {

  datatype Photo = Photo(src: string, original: string, hover: string)

  datatype Event = Enter | Leave

  /** Set-up: the current source is remembered as the original. */
  function Setup(src: string, hover: string): (r: Photo)
    ensures r.src == src && r.original == src && r.hover == hover
  {
    Photo(src, src, hover)
  }

  /** One pointer event. An empty hover source is falsy, so entering does nothing. */
  function Step(p: Photo, e: Event): (r: Photo)
    ensures r.original == p.original && r.hover == p.hover
    ensures e == Leave ==> r.src == p.original
    ensures e == Enter && p.hover == "" ==> r == p
    ensures e == Enter && p.hover != "" ==> r.src == p.hover
  {
    match e
    case Enter => if p.hover != "" then p.(src := p.hover) else p
    case Leave => p.(src := p.original)
  }

  function Run(p: Photo, es: seq<Event>): (r: Photo)
    decreases |es|
  {
    if es == [] then p else Run(Step(p, es[0]), es[1..])
  }

  /** The source is always the original or the hover source. */
  lemma {:induction false} RunShowsOriginalOrHover(src: string, hover: string, es: seq<Event>)
    ensures Run(Setup(src, hover), es).src in {src, hover}
  {
    RunFrom(Setup(src, hover), es);
  }

  lemma {:induction false} RunFrom(p: Photo, es: seq<Event>)
    requires p.src in {p.original, p.hover}
    ensures Run(p, es).original == p.original && Run(p, es).hover == p.hover
    ensures Run(p, es).src in {p.original, p.hover}
    ensures es != [] && es[|es| - 1] == Leave ==> Run(p, es).src == p.original
    decreases |es|
  {
    if es != [] {
      RunFrom(Step(p, es[0]), es[1..]);
      if |es| == 1 {
        assert Run(p, es) == Run(Step(p, es[0]), []);
      }
    }
  }

  /** After any hovering that ends with the pointer leaving, the original source
      is shown, however many times the pointer entered. */
  lemma LeaveRestoresOriginal(src: string, hover: string, es: seq<Event>)
    requires es != [] && es[|es| - 1] == Leave
    ensures Run(Setup(src, hover), es).src == src
  {
    RunFrom(Setup(src, hover), es);
  }
}
