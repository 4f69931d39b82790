/**
 * The configuration helpers of a minigame: read-or-initialise a string
 * setting, build a menu item from a `material`/`name` pair, and read
 * positions written as lists of three or five floats.
 */
module Config {
  import opened Wrappers

  /** A 32-bit float, carried as its bit pattern; no arithmetic is done on it. */
  datatype Float = Float(bits: bv32)

  /** The float 0.0f. */
  const Zero := Float(0)

  /** A Minestom `Pos`: coordinates, then yaw and pitch. */
  datatype Pos = Pos(x: Float, y: Float, z: Float, yaw: Float, pitch: Float)

  /**
   * What a configuration node holds, as far as these helpers can tell:
   * nothing, a scalar string, a list that reads as `Float[]`, or a value
   * the `Float[]` serializer rejects.
   */
  datatype Value = Null | Scalar(text: string) | Floats(items: seq<Float>) | Unconvertible

  /** A call that either returns or throws. */
  datatype Outcome<T> = Returned(value: T) | Thrown

  /** A material of the registry, by its namespaced id. */
  datatype Material = Material(id: string)

  /** A menu item: its material and the (unparsed) MiniMessage text of its name. */
  datatype ItemStack = ItemStack(material: Material, displayName: string)

  const DefaultMaterial := "minecraft:barrier"
  const DefaultName := "Please set a name in config for this"

  /** `node.getString()`: the text of a scalar node, `None` (null) for anything else. */
  function GetString(v: Value): Option<string>
  {
    if v.Scalar? then Some(v.text) else None
  }

  // ---------------------------------------------------------------------
  // getOrSetDefault
  // ---------------------------------------------------------------------

  /** The value a node holds after `getOrSetDefault(node, default)`. */
  function WithDefault(v: Value, default: string): (w: Value)
    ensures w.Scalar?
    ensures v.Scalar? ==> w == v
    ensures !v.Scalar? ==> w == Scalar(default)
  {
    if GetString(v).None? then Scalar(default) else v
  }

  /** Whether `getOrSetDefault` writes the node and saves: exactly when the node holds no string. */
  predicate WritesDefault(v: Value)
  {
    GetString(v).None?
  }

  /** A second `getOrSetDefault`, with any default, returns the first one's answer and writes nothing. */
  lemma GetOrSetDefaultIdempotent(v: Value, d1: string, d2: string)
    ensures !WritesDefault(WithDefault(v, d1))
    ensures WithDefault(WithDefault(v, d1), d2) == WithDefault(v, d1)
  {
  }

  // ---------------------------------------------------------------------
  // getItemStackFromConfig
  // ---------------------------------------------------------------------

  /**
   * `getItemStackFromConfig` given the `material` and `name` strings of
   * the node and the ids the material registry knows: missing strings are
   * replaced by the defaults, and an unknown material gives `None` (null).
   */
  function ItemFromConfig(material: Option<string>, name: Option<string>, registry: set<string>): (r: Option<ItemStack>)
    ensures r.Some? <==> (if material.Some? then material.value else DefaultMaterial) in registry
    ensures r.Some? && material.Some? ==> r.value.material.id == material.value
    ensures r.Some? && material.None? ==> r.value.material.id == DefaultMaterial
    ensures r.Some? && name.Some? ==> r.value.displayName == name.value
    ensures r.Some? && name.None? ==> r.value.displayName == DefaultName
  {
    var id := if material.None? then DefaultMaterial else material.value;
    var text := if name.None? then DefaultName else name.value;
    if id in registry then Some(ItemStack(Material(id), text)) else None
  }

  /** A configured name never changes whether an item is built. */
  lemma ItemNameIrrelevant(material: Option<string>, n1: Option<string>, n2: Option<string>, registry: set<string>)
    ensures ItemFromConfig(material, n1, registry).Some? == ItemFromConfig(material, n2, registry).Some?
  {
  }

  // ---------------------------------------------------------------------
  // getPosFromConfig
  // ---------------------------------------------------------------------

  /** The float list a position is written as: three coordinates, or five with yaw and pitch. */
  function PosToFloats(p: Pos, long: bool): (l: seq<Float>)
    ensures |l| == if long then 5 else 3
  {
    if long then [p.x, p.y, p.z, p.yaw, p.pitch] else [p.x, p.y, p.z]
  }

  /**
   * `getPosFromConfig`: a node that does not read as `Float[]` throws,
   * a missing list gives `None` (null), a list of three gives a position
   * with zero yaw and pitch, a list of five a full position, and any
   * other length `None`.
   */
  function PosFromValue(v: Value): (r: Outcome<Option<Pos>>)
    ensures r.Thrown? <==> v.Unconvertible?
    ensures r == Returned(None) <==> v.Null? || v.Scalar? || (v.Floats? && |v.items| != 3 && |v.items| != 5)
    ensures r.Returned? && r.value.Some? ==> v.Floats? && PosToFloats(r.value.value, |v.items| == 5) == v.items
    ensures r.Returned? && r.value.Some? && |v.items| == 3 ==> r.value.value.yaw == r.value.value.pitch == Zero
  {
    match v
    case Unconvertible => Thrown
    case Floats(l) =>
      if |l| == 3 then Returned(Some(Pos(l[0], l[1], l[2], Zero, Zero)))
      else if |l| == 5 then Returned(Some(Pos(l[0], l[1], l[2], l[3], l[4])))
      else Returned(None)
    case _ => Returned(None)
  }

  /** Writing a position as five floats and reading it back gives the position. */
  lemma PosRoundTrip(p: Pos)
    ensures PosFromValue(Floats(PosToFloats(p, true))) == Returned(Some(p))
    ensures p.yaw == p.pitch == Zero ==> PosFromValue(Floats(PosToFloats(p, false))) == Returned(Some(p))
  {
  }

  /** A Configurate node: its value, its list children and its map children. */
  class ConfigNode {
    var value: Value
    var children: seq<ConfigNode>
    var fields: map<string, ConfigNode>

    constructor (value: Value, children: seq<ConfigNode>, fields: map<string, ConfigNode>)
      ensures this.value == value && this.children == children && this.fields == fields
    {
      this.value := value;
      this.children := children;
      this.fields := fields;
    }
  }

  /** `node.node(key).getString()`: a missing child reads as null. */
  function ChildString(node: ConfigNode, key: string): (r: Option<string>)
    reads node, node.fields.Values
    ensures r.Some? <==> key in node.fields && node.fields[key].value.Scalar?
    ensures r.Some? ==> node.fields[key].value == Scalar(r.value)
  {
    if key in node.fields then GetString(node.fields[key].value) else None
  }

  /** `ConfigUtils`: the helpers, with the number of times the configuration was saved. */
  class ConfigUtils {
    var saves: nat

    constructor ()
      ensures saves == 0
    {
      saves := 0;
    }

    /** `saveConfig`: writes the configuration to disk (only counted here). */
    method SaveConfig()
      modifies this
      ensures saves == old(saves) + 1
    {
      saves := saves + 1;
    }

    /**
     * `getOrSetDefault`: a node holding a string keeps it and that string
     * is returned; any other node is overwritten with the default, the
     * configuration is saved, and the default is returned.
     */
    method GetOrSetDefault(node: ConfigNode, default: string) returns (r: string)
      modifies this, node
      ensures node.value == WithDefault(old(node.value), default)
      ensures node.value == Scalar(r)
      ensures node.children == old(node.children) && node.fields == old(node.fields)
      ensures saves == old(saves) + (if WritesDefault(old(node.value)) then 1 else 0)
    {
      var current := GetString(node.value);
      if current.None? {
        node.value := Scalar(default);
        SaveConfig();
        return default;
      }
      return current.value;
    }

    /** `getItemStackFromConfig` on a node, with the ids the material registry knows. */
    function GetItemStackFromConfig(configNode: ConfigNode, registry: set<string>): (r: Option<ItemStack>)
      reads configNode, configNode.fields.Values
      ensures var material := ChildString(configNode, "material");
              r.Some? <==> (if material.Some? then material.value else DefaultMaterial) in registry
      ensures r.Some? && "material" in configNode.fields && configNode.fields["material"].value.Scalar?
              ==> r.value.material.id == configNode.fields["material"].value.text
      ensures r.Some? && !("material" in configNode.fields && configNode.fields["material"].value.Scalar?)
              ==> r.value.material.id == DefaultMaterial
      ensures r.Some? && "name" in configNode.fields && configNode.fields["name"].value.Scalar?
              ==> r.value.displayName == configNode.fields["name"].value.text
      ensures r.Some? && !("name" in configNode.fields && configNode.fields["name"].value.Scalar?)
              ==> r.value.displayName == DefaultName
    {
      ItemFromConfig(ChildString(configNode, "material"), ChildString(configNode, "name"), registry)
    }

    /**
     * `getPosListFromConfig`: one entry per list child, in order, each the
     * child's `getPosFromConfig` (nulls included); the first child that
     * throws makes the whole call throw.
     */
    method GetPosListFromConfig(configNode: ConfigNode) returns (r: Outcome<seq<Option<Pos>>>)
      ensures r.Thrown? <==> exists i :: 0 <= i < |configNode.children| && configNode.children[i].value.Unconvertible?
      ensures r.Returned? ==> |r.value| == |configNode.children|
      ensures r.Returned? ==> forall i :: 0 <= i < |r.value| ==> Returned(r.value[i]) == PosFromValue(configNode.children[i].value)
    {
      var children := configNode.children;
      var out: seq<Option<Pos>> := [];
      var i := 0;
      while i < |children|
        invariant 0 <= i <= |children| && |out| == i
        invariant forall j :: 0 <= j < i ==> !children[j].value.Unconvertible?
        invariant forall j :: 0 <= j < i ==> Returned(out[j]) == PosFromValue(children[j].value)
      {
        var pos := PosFromValue(children[i].value);
        if pos.Thrown? {
          return Thrown;
        }
        out := out + [pos.value];
        i := i + 1;
      }
      return Returned(out);
    }
  }
}
