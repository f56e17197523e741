/**
The home page hero carousel: the slides fetched once on mount, the index of
the slide on show, the eight-second rotation, the dots, and what is rendered
for the current slide. Timers are modelled as `Tick` events.
*/
module HeroSection {
  import opened Wrappers
  import opened Strings
  import opened ImageUrl
  import opened HeroModel

  datatype Carousel = Carousel(slides: seq<HeroSlide>, current: nat, loading: bool)

  /** The state on mount: no slides, the first index, still loading. */
  function Initial(): Carousel {
    Carousel([], 0, true)
  }

  /** The index always names a slide, or is 0 while there are none. */
  predicate Inv(c: Carousel) {
    if |c.slides| == 0 then c.current == 0 else c.current < |c.slides|
  }

  datatype Fetch = Fetched(data: seq<HeroSlide>) | FetchFailed

  /** `fetchSlides`: a non-empty answer replaces the slides; an empty one or a failure keeps them; loading ends either way. */
  function Loaded(c: Carousel, f: Fetch): (r: Carousel)
    ensures !r.loading && r.current == c.current
    ensures f.Fetched? && |f.data| > 0 ==> r.slides == f.data
    ensures f.FetchFailed? || |f.data| == 0 ==> r.slides == c.slides
  {
    match f
    case Fetched(data) => if |data| > 0 then c.(slides := data, loading := false) else c.(loading := false)
    case FetchFailed => c.(loading := false)
  }

  datatype Event = Tick | ClickDot(index: nat)

  /**
  One event. The interval exists only when there is more than one slide, and
  advances modulo the count; the dots are drawn only then, one per slide.
  */
  function Step(c: Carousel, e: Event): (r: Carousel)
    ensures r.slides == c.slides && r.loading == c.loading
    ensures |c.slides| <= 1 ==> r == c
  {
    if |c.slides| <= 1 then c
    else
      match e
      case Tick => c.(current := (c.current + 1) % |c.slides|)
      case ClickDot(i) => if !c.loading && Inv(c) && i < |c.slides| then c.(current := i) else c
  }

  function Run(c: Carousel, es: seq<Event>): Carousel
    decreases |es|
  {
    if |es| == 0 then c else Run(Step(c, es[0]), es[1..])
  }

  function Ticks(k: nat): (es: seq<Event>)
    ensures |es| == k && forall i :: 0 <= i < k ==> es[i] == Tick
  {
    seq(k, i => Tick)
  }

  lemma LoadedKeepsInv(c: Carousel, f: Fetch)
    requires c == Initial()
    ensures Inv(Loaded(c, f))
  {
  }

  lemma StepKeepsInv(c: Carousel, e: Event)
    requires Inv(c)
    ensures Inv(Step(c, e))
  {
  }

  lemma {:induction false} RunKeepsInv(c: Carousel, es: seq<Event>)
    requires Inv(c)
    ensures Inv(Run(c, es))
    decreases |es|
  {
    if |es| > 0 {
      StepKeepsInv(c, es[0]);
      RunKeepsInv(Step(c, es[0]), es[1..]);
    }
  }

  lemma {:induction false} RunAppend(c: Carousel, a: seq<Event>, b: seq<Event>)
    ensures Run(c, a + b) == Run(Run(c, a), b)
    decreases |a|
  {
    if |a| == 0 {
      assert a + b == b;
    } else {
      assert (a + b)[1..] == a[1..] + b;
      RunAppend(Step(c, a[0]), a[1..], b);
    }
  }

  /** Before the last slide, `k` ticks move the carousel `k` slides on. */
  lemma {:induction false} TicksAdvance(c: Carousel, k: nat)
    requires Inv(c) && |c.slides| > 1 && c.current + k < |c.slides|
    ensures Run(c, Ticks(k)) == c.(current := c.current + k)
    decreases k
  {
    if k > 0 {
      TickForward(c);
      RunTicksCons(c, k);
      TicksAdvance(c.(current := c.current + 1), k - 1);
    }
  }

  /** A tick before the last slide moves one slide on. */
  lemma TickForward(c: Carousel)
    requires |c.slides| > 1 && c.current + 1 < |c.slides|
    ensures Step(c, Tick) == c.(current := c.current + 1)
  {
  }

  /** Running `k > 0` ticks is one tick followed by `k - 1`. */
  lemma RunTicksCons(c: Carousel, k: nat)
    requires k > 0
    ensures Run(c, Ticks(k)) == Run(Step(c, Tick), Ticks(k - 1))
  {
    assert Ticks(k)[0] == Tick;
    assert Ticks(k)[1..] == Ticks(k - 1);
  }

  /** A tick on the last slide goes back to the first. */
  lemma TickWraps(c: Carousel)
    requires |c.slides| > 1 && c.current == |c.slides| - 1
    ensures Step(c, Tick).current == 0
  {
  }

  /** As many ticks as there are slides come back to the same slide, having shown each once. */
  lemma FullCycle(c: Carousel)
    requires Inv(c) && |c.slides| > 1
    ensures Run(c, Ticks(|c.slides|)) == c
  {
    var n := |c.slides|;
    var p := c.current;
    assert Ticks(n) == Ticks(n - p - 1) + [Tick] + Ticks(p);
    RunAppend(c, Ticks(n - p - 1) + [Tick], Ticks(p));
    RunAppend(c, Ticks(n - p - 1), [Tick]);
    TicksAdvance(c, n - p - 1);
    var last := c.(current := n - 1);
    TickWraps(last);
    assert Run(last, [Tick]) == c.(current := 0);
    TicksAdvance(c.(current := 0), p);
  }

  datatype View = Blank | Logo | SlideView(slide: HeroSlide)

  /** What the section renders: nothing while loading, the logo when there is no current slide. */
  function Render(c: Carousel): (v: View)
    ensures c.loading <==> v == Blank
    ensures !c.loading && Inv(c) ==> (v == Logo <==> |c.slides| == 0)
    ensures v.SlideView? ==> c.current < |c.slides| && v.slide == c.slides[c.current]
  {
    if c.loading then Blank
    else if c.current >= |c.slides| || |c.slides| == 0 then Logo
    else SlideView(c.slides[c.current])
  }

  /** An empty or failed fetch leaves the logo on show. */
  lemma NothingFetchedShowsLogo(f: Fetch)
    requires f.FetchFailed? || |f.data| == 0
    ensures Render(Loaded(Initial(), f)) == Logo
  {
  }

  /** Clicking the `i`-th dot shows the `i`-th slide. */
  lemma DotShowsSlide(c: Carousel, i: nat)
    requires Inv(c) && !c.loading && 1 < |c.slides| && i < |c.slides|
    ensures Render(Step(c, ClickDot(i))) == SlideView(c.slides[i])
  {
  }

  // ---------------------------------------------------------------- the slide's contents

  datatype Action = ComingSoonBadge | Link(href: string)

  const ShopPath: string := "/shop"
  const ProductPathPrefix: string := "/product/"

  /** The call to action: a badge for a coming-soon slide, else a link to its product or to the shop. */
  function CallToAction(s: HeroSlide): (a: Action)
    ensures a == ComingSoonBadge <==> s.kind == ComingSoon
    ensures s.kind == ProductSlide && Truthy(s.productId) ==> a == Link(ProductPathPrefix + s.productId.value)
    ensures s.kind == ProductSlide && !Truthy(s.productId) ==> a == Link(ShopPath)
  {
    if s.kind == ComingSoon then ComingSoonBadge
    else if Truthy(s.productId) then Link(ProductPathPrefix + s.productId.value)
    else Link(ShopPath)
  }

  /** Every link the hero offers leads either to the shop or to one product page. */
  lemma LinkTargets(s: HeroSlide)
    ensures var a := CallToAction(s);
            a.Link? ==> a.href == ShopPath || (StartsWith(a.href, ProductPathPrefix) && |a.href| > |ProductPathPrefix|)
  {
  }

  const FallbackImage: string := "/hero_ring.png"

  /** The image `src`: a '/'-path is served by the backend, an empty image falls back to the stock ring picture. */
  function HeroImageSrc(s: HeroSlide, env: Option<string>): (src: string)
    ensures StartsWith(s.image, "/") ==> src == RemoveFirst(ApiUrl(env), ApiSuffix) + s.image
    ensures s.image == "" ==> src == FallbackImage
    ensures !StartsWith(s.image, "/") && s.image != "" ==> src == s.image
  {
    if StartsWith(s.image, "/") then ResolveImage(s.image, env)
    else if s.image != "" then s.image
    else FallbackImage
  }
}
