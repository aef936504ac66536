/** The caption style registry (`TEMPLATES` in `server/processor.py`): five
    named styles in a fixed order, looked up by key with `"classic"` as the
    fallback for unknown keys. */
module Templates {
  import opened Wrappers

  /** An RGBA colour as the PIL tuple `(r, g, b, a)`. */
  datatype Rgba = Rgba(r: int, g: int, b: int, a: int)

  /** One style record. `glowColor` and `strokeColor` are optional keys of
      the source dictionary; the renderer supplies their defaults. */
  datatype Style = Style(
    name: string,
    fontSize: nat,
    bgColor: Rgba,
    textColor: Rgba,
    highlightColor: Rgba,
    radius: int,
    padding: int,
    hasGlow: bool,
    glowColor: Option<Rgba>,
    strokeWidth: int,
    strokeColor: Option<Rgba>)

  const White := Rgba(255, 255, 255, 255)

  const Classic := Style("Classic", 52, Rgba(0, 0, 0, 140), White, Rgba(255, 255, 0, 255),
                         15, 40, false, None, 0, None)

  const Neon := Style("Neon Glow", 56, Rgba(20, 20, 40, 180), White, Rgba(0, 255, 255, 255),
                      20, 45, true, Some(Rgba(0, 255, 255, 200)), 0, None)

  const Bold := Style("Bold Pop", 60, Rgba(0, 0, 0, 0), White, Rgba(255, 50, 50, 255),
                      0, 50, false, None, 4, Some(Rgba(0, 0, 0, 255)))

  const Minimal := Style("Minimal Clean", 48, Rgba(255, 255, 255, 200), Rgba(0, 0, 0, 255),
                         Rgba(255, 100, 0, 255), 12, 35, false, None, 0, None)

  const Gradient := Style("Gradient Style", 54, Rgba(80, 0, 120, 160), White, Rgba(255, 200, 0, 255),
                          18, 42, true, Some(Rgba(255, 200, 0, 150)), 0, None)

  const DefaultKey := "classic"

  /** The registry in its dictionary's insertion order. */
  const Registry: seq<(string, Style)> := [
    ("classic", Classic),
    ("neon", Neon),
    ("bold", Bold),
    ("minimal", Minimal),
    ("gradient", Gradient)
  ]

  predicate DistinctKeys(reg: seq<(string, Style)>) {
    forall i, j :: 0 <= i < j < |reg| ==> reg[i].0 != reg[j].0
  }

  /** The style stored under `key`, or `None` when the key is absent. */
  function Lookup(reg: seq<(string, Style)>, key: string): (r: Option<Style>)
    ensures r.None? <==> forall i :: 0 <= i < |reg| ==> reg[i].0 != key
    ensures r.Some? ==> exists i :: 0 <= i < |reg| && reg[i] == (key, r.value)
  {
    if |reg| == 0 then None
    else if reg[0].0 == key then Some(reg[0].1)
    else
      var r := Lookup(reg[1..], key);
      assert forall i :: 1 <= i < |reg| ==> reg[i] == reg[1..][i - 1];
      r
  }

  /** In a registry with distinct keys, every entry is found under its own key. */
  lemma {:induction false} LookupFindsEntry(reg: seq<(string, Style)>, i: nat)
    requires DistinctKeys(reg)
    requires i < |reg|
    ensures Lookup(reg, reg[i].0) == Some(reg[i].1)
  {
    if i > 0 {
      assert reg[0].0 != reg[i].0;
      assert reg[1..][i - 1] == reg[i];
      LookupFindsEntry(reg[1..], i - 1);
    }
  }

  lemma RegistryKeysDistinct()
    ensures DistinctKeys(Registry)
  {
  }

  /** `TEMPLATES.get(key, TEMPLATES["classic"])`. */
  function Resolve(key: string): (s: Style)
    ensures s == Lookup(Registry, key).GetOr(Classic)
    ensures s == Classic || exists i :: 0 <= i < |Registry| && Registry[i] == (key, s)
  {
    match Lookup(Registry, key)
    case Some(style) => style
    case None => Lookup(Registry, DefaultKey).value
  }

  /** A key that is present resolves to its own style; any other key
      resolves to exactly the style stored under `"classic"`. */
  lemma ResolveFallback(key: string)
    ensures (exists i :: 0 <= i < |Registry| && Registry[i].0 == key) ==>
              exists i :: 0 <= i < |Registry| && Registry[i] == (key, Resolve(key))
    ensures (forall i :: 0 <= i < |Registry| ==> Registry[i].0 != key) ==>
              Resolve(key) == Resolve(DefaultKey)
  {
    RegistryKeysDistinct();
    LookupFindsEntry(Registry, 0);
  }

  /** The registry satisfies the invariants the renderer relies on: a glow
      colour wherever glow is on, a stroke colour wherever a stroke is drawn,
      and non-negative padding and radius. */
  lemma RegistryWellFormed()
    ensures forall i :: 0 <= i < |Registry| ==>
              && (Registry[i].1.hasGlow ==> Registry[i].1.glowColor.Some?)
              && (Registry[i].1.strokeWidth > 0 ==> Registry[i].1.strokeColor.Some?)
              && Registry[i].1.padding >= 0 && Registry[i].1.radius >= 0
  {
  }
}
