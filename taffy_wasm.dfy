/**
  The decision logic of the taffy-wasm bindings: the `TaffyTree` wrapper's
  `new_leaf`, `add_child` and `update_style`, the conversions between the u32
  handles the host sees and the u64 node ids of the tree, and the measure closure
  that `compute_layout_with_measure` hands to the layout engine.

  The layout engine, JS reflection and serde are outside this model. JS values are
  an abstract record (`JsValue`) whose `isObject`, `isArray`, `as_f64`, property
  lookups and array elements are given rather than derived from JS typing rules;
  numbers are opaque (`Number`); the serialiser and the JS callback are function
  parameters; the outcome of decoding a style object is an `Option<Style>`.
 */
module TaffyWasm {
  import opened Optional

  const Two32: nat := 0x1_0000_0000

  type U32 = x: nat | x < 0x1_0000_0000
  type U64 = x: nat | x < 0x1_0000_0000_0000_0000

  // ---------------------------------------------------------------------------
  // Handles

  /** `h as u64`: zero-extension keeps the value, which stays in the u32 range. */
  function Widen(h: U32): (r: U64)
    ensures r == h && r < Two32
  {
    h
  }

  /** `x as u32`: the low 32 bits of `x`. */
  function Narrow(x: U64): (r: U32)
    ensures r <= x && (x - r) % Two32 == 0
  {
    x % Two32
  }

  /** A handle survives `u32 -> u64 -> u32` unchanged. */
  lemma NarrowWiden(h: U32)
    ensures Narrow(Widen(h)) == h
  {
  }

  /**
    Narrowing loses exactly the high half: it keeps a node id iff the id is below 2^32,
    and two ids give the same handle iff they agree in their low 32 bits.
   */
  lemma NarrowKeepsLowHalf(x: U64, y: U64)
    ensures Narrow(x) == x <==> x < Two32
    ensures Narrow(x) == Narrow(y) <==> x % Two32 == y % Two32
    ensures Widen(Narrow(x)) == x <==> x < Two32
  {
  }

  // ---------------------------------------------------------------------------
  // Host values

  /** An f32 or JS number, as an opaque value. */
  datatype Number = Number(bits: bv64)

  /** `0.0` */
  const Zero := Number(0)

  datatype JsValue =
    | Null
    | Undefined
    | Value(isObject: bool, isArray: bool, asNumber: Option<Number>,
            properties: map<string, Property>, elements: seq<JsValue>)

  /** What `Reflect::get` meets under a key: a value, or a getter that throws. */
  datatype Property = Present(value: JsValue) | Throws

  /** `JsValue::from(n)` */
  function FromNumber(n: Number): JsValue {
    Value(false, false, Some(n), map[], [])
  }

  /** `JsValue::is_object` */
  predicate IsObject(v: JsValue) {
    v.Value? && v.isObject
  }

  /** `js_sys::Array::is_array` */
  predicate IsArray(v: JsValue) {
    v.Value? && v.isArray
  }

  /** `JsValue::as_f64` */
  function AsF64(v: JsValue): Option<Number> {
    if v.Value? then v.asNumber else None
  }

  /** `js_sys::Reflect::get(target, key)`; `None` is the `Err` of a throwing lookup. */
  function ReflectGet(target: JsValue, key: string): Option<JsValue> {
    if !target.Value? then None
    else if key !in target.properties then Some(Undefined)
    else match target.properties[key]
      case Present(v) => Some(v)
      case Throws => None
  }

  /** `Array::from(&target).get(i)`: `undefined` past the end. */
  function ArrayGet(target: JsValue, i: nat): JsValue {
    if target.Value? && i < |target.elements| then target.elements[i] else Undefined
  }

  // ---------------------------------------------------------------------------
  // The measure closure

  datatype Size<T> = Size(width: T, height: T)

  datatype AvailableSpace = Definite(value: Number) | MinContent | MaxContent

  /** `known.map(AvailableSpace::Definite).unwrap_or(available)` for one axis. */
  function EffectiveSpace(known: Option<Number>, available: AvailableSpace): (r: AvailableSpace)
    ensures known.Some? ==> r == Definite(known.value)
    ensures known.None? ==> r == available
  {
    match known
    case Some(k) => Definite(k)
    case None => available
  }

  /** The constraints passed to the callback, chosen axis by axis. */
  function Constraints(known: Size<Option<Number>>, available: Size<AvailableSpace>): (r: Size<AvailableSpace>)
    ensures r.width == EffectiveSpace(known.width, available.width)
    ensures r.height == EffectiveSpace(known.height, available.height)
  {
    Size(EffectiveSpace(known.width, available.width), EffectiveSpace(known.height, available.height))
  }

  /** Each axis of the constraints depends on that axis alone. */
  lemma ConstraintsAxesIndependent(known: Size<Option<Number>>, available: Size<AvailableSpace>,
                                   otherKnown: Size<Option<Number>>, otherAvailable: Size<AvailableSpace>)
    ensures known.width == otherKnown.width && available.width == otherAvailable.width ==>
      Constraints(known, available).width == Constraints(otherKnown, otherAvailable).width
    ensures known.height == otherKnown.height && available.height == otherAvailable.height ==>
      Constraints(known, available).height == Constraints(otherKnown, otherAvailable).height
  {
  }

  /**
    `Reflect::get(result, key).unwrap_or(JsValue::from(0.0)).as_f64().unwrap_or(0.0)`:
    the numeric property, or 0 when it is missing, not a number, or its lookup throws.
   */
  function PropertyNumber(result: JsValue, key: string): (n: Number)
    ensures result.Value? && key in result.properties && result.properties[key].Present? &&
            AsF64(result.properties[key].value).Some?
            ==> n == AsF64(result.properties[key].value).value
    ensures !(result.Value? && key in result.properties && result.properties[key].Present? &&
              AsF64(result.properties[key].value).Some?)
            ==> n == Zero
  {
    AsF64(ReflectGet(result, key).UnwrapOr(FromNumber(Zero))).UnwrapOr(Zero)
  }

  /** `array.get(i).as_f64().unwrap_or(0.0)`: the numeric element, or 0. */
  function ElementNumber(result: JsValue, i: nat): (n: Number)
    ensures result.Value? && i < |result.elements| && AsF64(result.elements[i]).Some?
            ==> n == AsF64(result.elements[i]).value
    ensures !(result.Value? && i < |result.elements| && AsF64(result.elements[i]).Some?)
            ==> n == Zero
  {
    AsF64(ArrayGet(result, i)).UnwrapOr(Zero)
  }

  /**
    Reading the callback's result: an object gives its `width` and `height`
    properties, otherwise an array gives its elements 0 and 1, and anything else
    gives 0 by 0.
   */
  function ReadSize(result: JsValue): (r: Size<Number>)
    ensures IsObject(result) ==>
      r == Size(PropertyNumber(result, "width"), PropertyNumber(result, "height"))
    ensures !IsObject(result) && IsArray(result) ==>
      r == Size(ElementNumber(result, 0), ElementNumber(result, 1))
    ensures !IsObject(result) && !IsArray(result) ==> r == Size(Zero, Zero)
  {
    if IsObject(result) then
      Size(PropertyNumber(result, "width"), PropertyNumber(result, "height"))
    else if IsArray(result) then
      Size(ElementNumber(result, 0), ElementNumber(result, 1))
    else
      Size(Zero, Zero)
  }

  /** The width read from an object does not depend on its `height` property, nor the other way round. */
  lemma ReadSizeAxesIndependent(result: JsValue, p: Property)
    requires IsObject(result)
    ensures ReadSize(result.(properties := result.properties["height" := p])).width == ReadSize(result).width
    ensures ReadSize(result.(properties := result.properties["width" := p])).height == ReadSize(result).height
  {
    assert "width" != "height";
  }

  /** The first argument of the callback: the node's context data, or `null`. */
  function ContextData(context: Option<JsValue>): (r: JsValue)
    ensures context.None? ==> r == Null
    ensures context.Some? ==> r == context.value
  {
    context.UnwrapOr(Null)
  }

  /**
    The measure closure. `serialize` stands for `serde_wasm_bindgen::to_value`
    (`None`: it failed) and `call` for `measure_func.call2(null, context, constraints)`
    (`None`: the callback threw).
   */
  function MeasureLeaf(known: Size<Option<Number>>, available: Size<AvailableSpace>,
                       context: Option<JsValue>,
                       serialize: Size<AvailableSpace> -> Option<JsValue>,
                       call: (JsValue, JsValue) -> Option<JsValue>): (r: Size<Number>)
    ensures serialize(Constraints(known, available)).None? ==> r == Size(Zero, Zero)
    ensures serialize(Constraints(known, available)).Some? &&
            call(ContextData(context), serialize(Constraints(known, available)).value).None?
            ==> r == Size(Zero, Zero)
    ensures serialize(Constraints(known, available)).Some? &&
            call(ContextData(context), serialize(Constraints(known, available)).value).Some?
            ==> r == ReadSize(call(ContextData(context), serialize(Constraints(known, available)).value).value)
  {
    var constraints := Constraints(known, available);
    match serialize(constraints)
    case None => Size(Zero, Zero)
    case Some(constraintsJs) =>
      match call(ContextData(context), constraintsJs)
      case Some(result) => ReadSize(result)
      case None => Size(Zero, Zero)
  }

  // ---------------------------------------------------------------------------
  // The tree

  /** Taffy's `Style`, as an opaque record of layout properties. */
  datatype Style = Style(record: seq<nat>)

  /** `Style::default()` */
  const DefaultStyle := Style([])

  /**
    The wrapper around the layout tree. The tree itself is its nodes' styles and
    child lists, keyed by node id; ids are handed out in order from 0, and a node id
    below 2^32 is the one a host handle widens to.
   */
  class TaffyTree {
    var styles: map<U64, Style>
    var children: map<U64, seq<U64>>
    var nextKey: nat

    ghost predicate Valid()
      reads this
    {
      && styles.Keys == children.Keys
      && nextKey <= Two32
      && (forall k :: k in styles ==> k < nextKey)
      && (forall k, c :: k in children && c in children[k] ==> c in styles)
    }

    /** `TaffyTree::new()`: an empty tree. */
    constructor ()
      ensures Valid()
      ensures styles == map[] && children == map[] && nextKey == 0
    {
      styles := map[];
      children := map[];
      nextKey := 0;
    }

    /**
      `new_leaf`: a style that does not decode is replaced by `Style::default()`, and
      a leaf is created either way. `None` stands for the panic of `unwrap()` when the
      tree has no id left to give.
     */
    method NewLeaf(decoded: Option<Style>) returns (handle: Option<U32>)
      requires Valid()
      modifies this
      ensures Valid()
      ensures old(nextKey) < Two32 ==>
        && handle == Some(old(nextKey))
        && old(nextKey) !in old(styles)
        && styles == old(styles)[old(nextKey) := decoded.UnwrapOr(DefaultStyle)]
        && children == old(children)[old(nextKey) := []]
        && nextKey == old(nextKey) + 1
      ensures old(nextKey) == Two32 ==>
        handle == None && styles == old(styles) && children == old(children) && nextKey == old(nextKey)
    {
      if nextKey == Two32 {
        return None;
      }
      var style := match decoded
        case Some(s) => s
        case None => DefaultStyle;
      var node: U64 := nextKey;
      styles := styles[node := style];
      children := children[node := []];
      nextKey := nextKey + 1;
      handle := Some(Narrow(node));
    }

    /**
      `add_child`: appends `child` to `parent`'s children. `ok` is false where
      `unwrap()` panics because either id names no node; nothing changes then.
     */
    method AddChild(parent: U32, child: U32) returns (ok: bool)
      requires Valid()
      modifies this
      ensures Valid()
      ensures ok <==> Widen(parent) in old(styles) && Widen(child) in old(styles)
      ensures ok ==> children == old(children)[Widen(parent) := old(children)[Widen(parent)] + [Widen(child)]]
      ensures !ok ==> children == old(children)
      ensures styles == old(styles) && nextKey == old(nextKey)
    {
      var p, c := Widen(parent), Widen(child);
      ok := p in styles && c in styles;
      if ok {
        children := children[p := children[p] + [c]];
      }
    }

    /**
      `update_style`: a style that does not decode is logged and dropped, leaving every
      style as it was; so is a handle that names no node (the `set_style` error).
     */
    method UpdateStyle(nodeId: U32, decoded: Option<Style>)
      requires Valid()
      modifies this
      ensures Valid()
      ensures decoded.None? ==> styles == old(styles)
      ensures decoded.Some? && Widen(nodeId) in old(styles) ==>
        styles == old(styles)[Widen(nodeId) := decoded.value]
      ensures decoded.Some? && Widen(nodeId) !in old(styles) ==> styles == old(styles)
      ensures children == old(children) && nextKey == old(nextKey)
    {
      if decoded.None? {
        return;
      }
      var node := Widen(nodeId);
      if node in styles {
        styles := styles[node := decoded.value];
      }
    }
  }

  /**
    The two decode-error policies side by side, on a fresh tree: a leaf created from an
    undecodable style gets the default style, an undecodable update leaves it there,
    and a decodable update through the returned handle replaces it.
   */
  method DecodeErrorPolicy(s: Style) returns (afterNewLeaf: Style, afterBadUpdate: Style, afterUpdate: Style)
    ensures afterNewLeaf == DefaultStyle
    ensures afterBadUpdate == DefaultStyle
    ensures afterUpdate == s
  {
    var tree := new TaffyTree();
    var handle := tree.NewLeaf(None);
    var h := handle.value;
    afterNewLeaf := tree.styles[Widen(h)];
    tree.UpdateStyle(h, None);
    afterBadUpdate := tree.styles[Widen(h)];
    tree.UpdateStyle(h, Some(s));
    afterUpdate := tree.styles[Widen(h)];
  }
}
