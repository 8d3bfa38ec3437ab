/**
 * `Config.getServerTypeId` (login/Config.java): the server-type mask built
 * from the configured type names.
 */
module ServerConfig {
  import opened JavaText

  /** The bit one configured name contributes, matched after `trim().toLowerCase()`; 0 for an unknown name. */
  function TypeBit(cType: JString): (b: bv16)
    ensures b in {0x00, 0x01, 0x02, 0x04, 0x08, 0x10, 0x20, 0x40, 0x100, 0x200, 0x400}
  {
    var name := Lower(Trim(cType));
    if name == Lit("normal") then 0x01
    else if name == Lit("relax") then 0x02
    else if name == Lit("test") then 0x04
    else if name == Lit("broad") then 0x08
    else if name == Lit("restricted") then 0x10
    else if name == Lit("event") then 0x20
    else if name == Lit("free") then 0x40
    else if name == Lit("world") then 0x100
    else if name == Lit("new") then 0x200
    else if name == Lit("classic") then 0x400
    else 0
  }

  /** The OR of the bits of all names. */
  function TypeMask(names: seq<JString>): bv16
  {
    if names == [] then 0 else TypeMask(names[..|names| - 1]) | TypeBit(names[|names| - 1])
  }

  /** `getServerTypeId(serverTypes)`: OR-accumulates each name's bit, starting from 0. */
  method GetServerTypeId(serverTypes: seq<JString>) returns (serverType: int)
    ensures serverType == TypeMask(serverTypes) as int
    ensures 0 <= serverType < 0x800
  {
    var acc: bv16 := 0;
    var i := 0;
    while i < |serverTypes|
      invariant 0 <= i <= |serverTypes|
      invariant acc == TypeMask(serverTypes[..i])
    {
      assert serverTypes[..i + 1][..i] == serverTypes[..i];
      acc := acc | TypeBit(serverTypes[i]);
      i := i + 1;
    }
    assert serverTypes[..i] == serverTypes;
    MaskBelow(serverTypes);
    serverType := acc as int;
  }

  /** Only the eleven known bits can be set. */
  lemma {:induction false} MaskBelow(names: seq<JString>)
    ensures TypeMask(names) & 0xF880 == 0
  {
    if names != [] {
      MaskBelow(names[..|names| - 1]);
    }
  }

  /** The mask of two lists in a row is the OR of their masks. */
  lemma {:induction false} MaskAppend(a: seq<JString>, b: seq<JString>)
    ensures TypeMask(a + b) == TypeMask(a) | TypeMask(b)
    decreases |b|
  {
    if b == [] {
      assert a + b == a;
    } else {
      var b' := b[..|b| - 1];
      assert (a + b)[..|a + b| - 1] == a + b';
      MaskAppend(a, b');
    }
  }

  /** The order of the names does not matter, nor does repeating them. */
  lemma MaskOrderFree(a: seq<JString>, b: seq<JString>)
    ensures TypeMask(a + b) == TypeMask(b + a)
    ensures TypeMask(a + a) == TypeMask(a)
  {
    MaskAppend(a, b);
    MaskAppend(b, a);
    MaskAppend(a, a);
  }

  /** Every name's bit is in the mask, and an unknown name adds nothing. */
  lemma {:induction false} MaskHasEveryBit(names: seq<JString>, i: int)
    requires 0 <= i < |names|
    ensures TypeMask(names) & TypeBit(names[i]) == TypeBit(names[i])
    decreases |names|
  {
    if i < |names| - 1 {
      MaskHasEveryBit(names[..|names| - 1], i);
    }
  }

  /** The mask is 0 exactly when no name is a known type. */
  lemma MaskZero(names: seq<JString>)
    ensures TypeMask(names) == 0 <==> forall k :: 0 <= k < |names| ==> TypeBit(names[k]) == 0
  {
    if TypeMask(names) == 0 {
      forall k | 0 <= k < |names| ensures TypeBit(names[k]) == 0 {
        MaskHasEveryBit(names, k);
      }
    }
    if forall k :: 0 <= k < |names| ==> TypeBit(names[k]) == 0 {
      UnknownNamesMaskZero(names);
    }
  }

  /** Names of no known type give the empty mask. */
  lemma {:induction false} UnknownNamesMaskZero(names: seq<JString>)
    requires forall k :: 0 <= k < |names| ==> TypeBit(names[k]) == 0
    ensures TypeMask(names) == 0
    decreases |names|
  {
    if names != [] {
      var init := names[..|names| - 1];
      forall k | 0 <= k < |init| ensures TypeBit(init[k]) == 0 {
        assert init[k] == names[k];
      }
      UnknownNamesMaskZero(init);
      OrZero(TypeMask(init), TypeBit(names[|names| - 1]));
    }
  }

  lemma OrZero(a: bv16, b: bv16)
    ensures a | b == 0 <==> a == 0 && b == 0
  {
  }
}
