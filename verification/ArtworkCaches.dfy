/** Rasterized artwork, kept for the app's lifetime under a key made from the
    request. Whether a kept image can be the wrong one is a question about the key. */
module ArtworkCaches {
  import opened Keys

  const RASTER_SCALE: nat := 2

  // ----- Any such cache -----

  /** One request: what is kept under its key, else what drawing it gives, which is kept. */
  function Serve<Q, K(==), V>(key: Q -> K, draw: Q -> V, kept: map<K, V>, q: Q): (map<K, V>, V) {
    if key(q) in kept then (kept, kept[key(q)]) else (kept[key(q) := draw(q)], draw(q))
  }

  function Kept<Q, K(==), V>(key: Q -> K, draw: Q -> V, qs: seq<Q>): map<K, V> {
    if qs == [] then map[] else Serve(key, draw, Kept(key, draw, qs[..|qs| - 1]), qs[|qs| - 1]).0
  }

  /** What request number `i` of the run is answered. */
  function Served<Q, K(==), V>(key: Q -> K, draw: Q -> V, qs: seq<Q>, i: nat): V
    requires i < |qs|
  {
    Serve(key, draw, Kept(key, draw, qs[..i]), qs[i]).1
  }

  class Cache<Q, K(==), V> {
    const key: Q -> K
    const draw: Q -> V
    var kept: map<K, V>

    constructor (key: Q -> K, draw: Q -> V)
      ensures this.key == key && this.draw == draw && kept == map[]
    {
      this.key, this.draw, kept := key, draw, map[];
    }

    method Get(q: Q) returns (image: V)
      modifies this
      ensures (kept, image) == Serve(key, draw, old(kept), q)
    {
      var k := key(q);
      if k in kept {
        return kept[k];
      }
      image := draw(q);
      kept := kept[k := image];
    }

    /** A run of requests to a new cache. */
    method GetAll(qs: seq<Q>) returns (images: seq<V>)
      requires kept == map[]
      modifies this
      ensures kept == Kept(key, draw, qs) && |images| == |qs|
      ensures forall i | 0 <= i < |qs| :: images[i] == Served(key, draw, qs, i)
    {
      images := [];
      for i := 0 to |qs|
        invariant kept == Kept(key, draw, qs[..i]) && |images| == i
        invariant forall j | 0 <= j < i :: images[j] == Served(key, draw, qs, j)
      {
        var image := Get(qs[i]);
        images := images + [image];
        assert qs[..i + 1][..i] == qs[..i];
      }
      assert qs[..|qs|] == qs;
    }
  }

  /** Every request of the run is answered with what drawing it afresh would give. */
  ghost predicate AllFresh<Q, K, V>(key: Q -> K, draw: Q -> V, qs: seq<Q>) {
    forall i | 0 <= i < |qs| :: Served(key, draw, qs, i) == draw(qs[i])
  }

  ghost predicate AllIn<Q>(domain: Q -> bool, qs: seq<Q>) {
    forall i | 0 <= i < |qs| :: domain(qs[i])
  }

  /** The key tells two requests apart that must look different. */
  ghost predicate Tells<Q, K, V>(key: Q -> K, draw: Q -> V, p: Q, q: Q) {
    key(p) == key(q) ==> draw(p) == draw(q)
  }

  /** What is kept under a key was drawn for some request with that key. */
  lemma {:induction false} KeptIsDrawn<Q, K, V>(key: Q -> K, draw: Q -> V, qs: seq<Q>, k: K)
    requires k in Kept(key, draw, qs)
    ensures exists j :: 0 <= j < |qs| && key(qs[j]) == k && draw(qs[j]) == Kept(key, draw, qs)[k]
  {
    var n := |qs| - 1;
    if k in Kept(key, draw, qs[..n]) {
      KeptIsDrawn(key, draw, qs[..n], k);
      var j :| 0 <= j < n && key(qs[..n][j]) == k && draw(qs[..n][j]) == Kept(key, draw, qs[..n])[k];
      assert qs[j] == qs[..n][j];
    } else {
      assert key(qs[n]) == k;
    }
  }

  lemma FreshWhenTold<Q, K, V>(key: Q -> K, draw: Q -> V, qs: seq<Q>)
    requires forall i, j | 0 <= i < |qs| && 0 <= j < |qs| :: Tells(key, draw, qs[i], qs[j])
    ensures AllFresh(key, draw, qs)
  {
    forall i | 0 <= i < |qs|
      ensures Served(key, draw, qs, i) == draw(qs[i])
    {
      if key(qs[i]) in Kept(key, draw, qs[..i]) {
        KeptIsDrawn(key, draw, qs[..i], key(qs[i]));
        var j :| 0 <= j < i && key(qs[..i][j]) == key(qs[i])
                 && draw(qs[..i][j]) == Kept(key, draw, qs[..i])[key(qs[i])];
        assert Tells(key, draw, qs[j], qs[i]);
      }
    }
  }

  lemma SecondOfTwo<Q, K, V>(key: Q -> K, draw: Q -> V, p: Q, q: Q)
    ensures Served(key, draw, [p, q], 1) == if key(p) == key(q) then draw(p) else draw(q)
  {
    assert [p, q][..1] == [p] && [p][..0] == [];
    assert Kept(key, draw, [p]) == map[key(p) := draw(p)];
  }

  /** Every run of requests from a domain is answered afresh if and only if the key tells apart what must look
      different there. */
  lemma CacheIsTransparent<Q(!new), K, V>(key: Q -> K, draw: Q -> V, domain: Q -> bool)
    ensures (forall qs | AllIn(domain, qs) :: AllFresh(key, draw, qs)) <==>
            (forall p, q | domain(p) && domain(q) :: Tells(key, draw, p, q))
  {
    if forall qs | AllIn(domain, qs) :: AllFresh(key, draw, qs) {
      forall p, q | domain(p) && domain(q)
        ensures Tells(key, draw, p, q)
      {
        assert AllIn(domain, [p, q]);
        SecondOfTwo(key, draw, p, q);
        assert Served(key, draw, [p, q], 1) == draw([p, q][1]);
      }
    }
    if forall p, q | domain(p) && domain(q) :: Tells(key, draw, p, q) {
      forall qs | AllIn(domain, qs)
        ensures AllFresh(key, draw, qs)
      {
        FreshWhenTold(key, draw, qs);
      }
    }
  }

  // ----- Tinted icons -----

  /** A colour's channels as `hex_of` rounds them. */
  datatype Rgb = Rgb(r: bv32, g: bv32, b: bv32)

  datatype IconRequest = IconRequest(icon: nat, solid: bool, color: Rgb, logicalPx: nat)

  function ColorKey(c: Rgb): bv32 {
    (c.r << 16) | (c.g << 8) | c.b
  }

  function IconKey(q: IconRequest): (nat, bool, bv32, nat) {
    (q.icon, q.solid, ColorKey(q.color), q.logicalPx * RASTER_SCALE)
  }

  predicate InGamut(c: Rgb) {
    c.r <= 0xFF && c.g <= 0xFF && c.b <= 0xFF
  }

  /** The colour whose channels are the three low bytes of a key. */
  function Unpacked(key: bv32): Rgb {
    Rgb((key >> 16) & 0xFF, (key >> 8) & 0xFF, key & 0xFF)
  }

  /** The key gives a colour back exactly when no channel is past 255. */
  lemma ColorSurvives(c: Rgb)
    ensures Unpacked(ColorKey(c)) == c <==> InGamut(c)
  {
  }

  /** Blue alone, carried over into green and red. */
  function Carried(b: bv32): Rgb {
    Rgb(b >> 16, (b >> 8) & 0xFF, b & 0xFF)
  }

  /** Another colour with the key of `c`. */
  function Lookalike(c: Rgb): Rgb {
    if c.r == 0 && c.g == 0 then Carried(c.b) else Rgb(0, 0, ColorKey(c))
  }

  /** A channel past 255 runs into its neighbour, and `hex_of` does not clamp: every colour
      out of gamut shares its key with another. */
  lemma OutOfGamutCollides(c: Rgb)
    requires !InGamut(c)
    ensures Lookalike(c) != c && ColorKey(Lookalike(c)) == ColorKey(c)
  {
    hide ColorKey, Carried;
    BlueOnly(c.b);
    BlueOnly(ColorKey(c));
    BlueCarried(c.b);
  }

  lemma BlueOnly(b: bv32)
    ensures ColorKey(Rgb(0, 0, b)) == b
  {
  }

  lemma BlueCarried(b: bv32)
    ensures ColorKey(Carried(b)) == b
    ensures 0xFF < b ==> Carried(b) != Rgb(0, 0, b)
  {
    assert (b & 0xFF) <= 0xFF;
  }

  /** Two requests are then enough for the wrong picture, with any rasterizer that tells the two colours
      apart: asked for the lookalike first, the cache answers the second request with it. */
  lemma OutOfGamutIsServedWrong<V>(draw: (nat, bool, Rgb, nat) -> V, q: IconRequest)
    requires !InGamut(q.color)
    requires DrawIcon(draw, q.(color := Lookalike(q.color))) != DrawIcon(draw, q)
    ensures var other := q.(color := Lookalike(q.color));
            Served(IconKey, r => DrawIcon(draw, r), [other, q], 1) == DrawIcon(draw, other)
            && !AllFresh(IconKey, r => DrawIcon(draw, r), [other, q])
  {
    var other := q.(color := Lookalike(q.color));
    OutOfGamutCollides(q.color);
    SecondOfTwo(IconKey, r => DrawIcon(draw, r), other, q);
    assert [other, q][1] == q;
  }

  /** `draw` is the rasterizer, which sees the icon, its style, the colour and the size. */
  function DrawIcon<V>(draw: (nat, bool, Rgb, nat) -> V, q: IconRequest): V {
    draw(q.icon, q.solid, q.color, q.logicalPx * RASTER_SCALE)
  }

  lemma IconsAreFresh<V>(draw: (nat, bool, Rgb, nat) -> V, qs: seq<IconRequest>)
    requires forall i | 0 <= i < |qs| :: InGamut(qs[i].color)
    ensures AllFresh(IconKey, q => DrawIcon(draw, q), qs)
  {
    var drawn := q => DrawIcon(draw, q);
    forall i, j | 0 <= i < |qs| && 0 <= j < |qs|
      ensures Tells(IconKey, drawn, qs[i], qs[j])
    {
      ColorSurvives(qs[i].color);
      ColorSurvives(qs[j].color);
    }
    FreshWhenTold(IconKey, drawn, qs);
  }

  // ----- The security-key mark -----

  datatype MarkRequest = MarkRequest(attachment: string, transports: string, chosen: bool, dark: bool, logicalPx: nat)

  function MarkText(q: MarkRequest): string {
    q.attachment + "|" + q.transports + "|" + BoolText(q.chosen) + "|" + BoolText(q.dark)
    + "|" + Decimal(q.logicalPx * RASTER_SCALE)
  }

  /** The text gives away everything but where the attachment ends. */
  lemma MarkTextMeans(p: MarkRequest, q: MarkRequest)
    ensures MarkText(p) == MarkText(q) <==>
              p.attachment + "|" + p.transports == q.attachment + "|" + q.transports
              && p.chosen == q.chosen && p.dark == q.dark && p.logicalPx == q.logicalPx
  {
    if MarkText(p) == MarkText(q) {
      var m, n := p.logicalPx * RASTER_SCALE, q.logicalPx * RASTER_SCALE;
      DecimalDigits(m);
      DecimalDigits(n);
      var p1 := p.attachment + "|" + p.transports;
      var q1 := q.attachment + "|" + q.transports;
      var p2, q2 := p1 + "|" + BoolText(p.chosen), q1 + "|" + BoolText(q.chosen);
      SplitAtLast(p2 + "|" + BoolText(p.dark), Decimal(m), q2 + "|" + BoolText(q.dark), Decimal(n), '|');
      SplitAtLast(p2, BoolText(p.dark), q2, BoolText(q.dark), '|');
      SplitAtLast(p1, BoolText(p.chosen), q1, BoolText(q.chosen), '|');
      DecimalInjective(m, n);
    }
  }

  /** The attachment cut at a bar, the rest of it moved to the transports. */
  function Mistaken(a: string, b: string, q: MarkRequest): MarkRequest {
    q.(attachment := a, transports := b + "|" + q.transports)
  }

  /** Every attachment with a bar in it can be mistaken for another. */
  lemma BarsCollide(a: string, b: string, q: MarkRequest)
    requires q.attachment == a + "|" + b
    ensures Mistaken(a, b, q) != q && MarkText(Mistaken(a, b, q)) == MarkText(q)
  {
    var other := Mistaken(a, b, q);
    assert other.attachment + "|" + other.transports == q.attachment + "|" + q.transports;
    MarkTextMeans(other, q);
  }

  /** And two requests are enough for the wrong mark, with any rasterizer that tells them apart. */
  lemma BarIsServedWrong<V>(draw: (string, string, bool, bool, nat) -> V, a: string, b: string, q: MarkRequest)
    requires q.attachment == a + "|" + b && DrawMark(draw, Mistaken(a, b, q)) != DrawMark(draw, q)
    ensures Served(MarkText, r => DrawMark(draw, r), [Mistaken(a, b, q), q], 1) == DrawMark(draw, Mistaken(a, b, q))
            && !AllFresh(MarkText, r => DrawMark(draw, r), [Mistaken(a, b, q), q])
  {
    var other := Mistaken(a, b, q);
    BarsCollide(a, b, q);
    SecondOfTwo(MarkText, r => DrawMark(draw, r), other, q);
    assert [other, q][1] == q;
  }

  /** As long as no attachment has a bar in it, every mark is the one drawing afresh would give. The
      palette is a function of `dark`, as it is for the two themes there are. */
  lemma MarksAreFresh<V>(draw: (string, string, bool, bool, nat) -> V, qs: seq<MarkRequest>)
    requires forall i | 0 <= i < |qs| :: '|' !in qs[i].attachment
    ensures AllFresh(MarkText, q => DrawMark(draw, q), qs)
  {
    var drawn := q => DrawMark(draw, q);
    forall i, j | 0 <= i < |qs| && 0 <= j < |qs|
      ensures Tells(MarkText, drawn, qs[i], qs[j])
    {
      if MarkText(qs[i]) == MarkText(qs[j]) {
        MarkTextMeans(qs[i], qs[j]);
        SplitAtFirst(qs[i].attachment, qs[i].transports, qs[j].attachment, qs[j].transports, '|');
      }
    }
    FreshWhenTold(MarkText, drawn, qs);
  }

  function DrawMark<V>(draw: (string, string, bool, bool, nat) -> V, q: MarkRequest): V {
    draw(q.attachment, q.transports, q.chosen, q.dark, q.logicalPx * RASTER_SCALE)
  }
}
