/** Whitelist admission rules for ACPI device classes and evdev
    type/code/value triples. The filters are immutable values built from the
    configured lists; `AcpiFilter::new` and `EvdevFilter::new` are the datatype
    constructors, which keep the lists as given, in the same order. */
module Filter {
  import opened Primitives

  /** `Vec::contains`: a linear scan for an element equal to `x`. */
  function Contains<T(==)>(xs: seq<T>, x: T): (r: bool)
    ensures r <==> x in xs
  {
    if |xs| == 0 then false else xs[0] == x || Contains(xs[1..], x)
  }

  datatype AcpiFilter = AcpiFilter(deviceClassWhitelist: seq<string>) {

    /** Whether the class is listed. An empty list lists nothing: the
        wildcard reading is left to the caller, through `IsWildcard`. */
    predicate ContainsDeviceClass(devClass: string)
      ensures ContainsDeviceClass(devClass) <==> exists i :: 0 <= i < |deviceClassWhitelist| && deviceClassWhitelist[i] == devClass
    {
      Contains(deviceClassWhitelist, devClass)
    }

    /** Whether the filter admits every device class: no class is listed. */
    predicate IsWildcard()
      ensures IsWildcard() <==> deviceClassWhitelist == []
    {
      |deviceClassWhitelist| == 0
    }
  }

  /** An ACPI filter is the wildcard exactly when it contains no device
      class at all: `ContainsDeviceClass` alone never admits everything. */
  lemma AcpiWildcardIff(f: AcpiFilter)
    ensures f.IsWildcard() <==> forall c :: !f.ContainsDeviceClass(c)
  {
    if !f.IsWildcard() {
      assert f.ContainsDeviceClass(f.deviceClassWhitelist[0]);
    }
  }

  datatype EvdevFilter = EvdevFilter(
    evdevTypeWhitelist: seq<u16>,
    evdevCodeWhitelist: seq<u16>,
    evdevValueWhitelist: seq<i32>)
  {

    /** A listed type, or any type when no type is listed. */
    predicate ContainsType(ty: u16)
      ensures ContainsType(ty) <==> ty in evdevTypeWhitelist || evdevTypeWhitelist == []
    {
      Contains(evdevTypeWhitelist, ty) || |evdevTypeWhitelist| == 0
    }

    /** A listed code, or any code when no code is listed. */
    predicate ContainsCode(code: u16)
      ensures ContainsCode(code) <==> code in evdevCodeWhitelist || evdevCodeWhitelist == []
    {
      Contains(evdevCodeWhitelist, code) || |evdevCodeWhitelist| == 0
    }

    /** A listed value, or any value when no value is listed. */
    predicate ContainsValue(value: i32)
      ensures ContainsValue(value) <==> value in evdevValueWhitelist || evdevValueWhitelist == []
    {
      Contains(evdevValueWhitelist, value) || |evdevValueWhitelist| == 0
    }

    /** All three lists are empty. */
    predicate IsWildcard()
      ensures IsWildcard() <==> evdevTypeWhitelist == [] && evdevCodeWhitelist == [] && evdevValueWhitelist == []
    {
      |evdevTypeWhitelist| == 0 && |evdevCodeWhitelist| == 0 && |evdevValueWhitelist| == 0
    }
  }

  /** A wildcard evdev filter contains every type, code and value. */
  lemma EvdevWildcardContainsAll(f: EvdevFilter, ty: u16, code: u16, value: i32)
    requires f.IsWildcard()
    ensures f.ContainsType(ty) && f.ContainsCode(code) && f.ContainsValue(value)
  {
  }

  /** For a type, code and value that no list names, the filter contains all
      three exactly when it is the wildcard. */
  lemma EvdevWildcardIff(f: EvdevFilter, ty: u16, code: u16, value: i32)
    requires ty !in f.evdevTypeWhitelist && code !in f.evdevCodeWhitelist && value !in f.evdevValueWhitelist
    ensures f.IsWildcard() <==> f.ContainsType(ty) && f.ContainsCode(code) && f.ContainsValue(value)
  {
  }
}
