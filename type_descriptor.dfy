/**
 * type_descriptor: a type is split into its base type and a stack of tags,
 * one per modifier (pointer, const, lvalue / rvalue reference, array of
 * unknown bound, array of N), innermost modifier first. Tags are size_t
 * values: the five modifiers take the five largest values and an array of N
 * is tagged with N itself. size_t is taken to be 64 bits wide.
 *
 * Types are free terms here: the identities C++ applies to types (const on
 * an array meaning an array of const elements, repeated const collapsing) are
 * not made.
 */
module TypeDescriptors {
  import opened Wrappers
  import TypeLists

  /** The largest value of a 64-bit size_t. */
  const SizeMax: nat := 0xFFFF_FFFF_FFFF_FFFF

  const PointerTag: nat := SizeMax - 4
  const ConstTag: nat := SizeMax - 3
  const LReferenceTag: nat := SizeMax - 2
  const RReferenceTag: nat := SizeMax - 1
  const ArrayTag: nat := SizeMax

  datatype Type =
    | Base(id: nat)
    | PointerTo(pointee: Type)
    | ConstOf(qualified: Type)
    | LReference(referee: Type)
    | RReference(rreferee: Type)
    | UnsizedArray(element: Type)
    | SizedArray(elements: Type, size: nat)

  /** type_descriptor<Base, Tags...>. */
  datatype Descriptor = Descriptor(base: Type, tags: seq<nat>)

  /** Every tag is a size_t value. */
  ghost predicate ValidTags(tags: seq<nat>)
  {
    forall i :: 0 <= i < |tags| ==> tags[i] <= SizeMax
  }

  /** Every array bound in the type is below the modifier tags, so it cannot be mistaken for one. */
  ghost predicate BoundsBelowTags(t: Type)
  {
    match t
    case Base(_) => true
    case PointerTo(e) => BoundsBelowTags(e)
    case ConstOf(e) => BoundsBelowTags(e)
    case LReference(e) => BoundsBelowTags(e)
    case RReference(e) => BoundsBelowTags(e)
    case UnsizedArray(e) => BoundsBelowTags(e)
    case SizedArray(e, n) => n < PointerTag && BoundsBelowTags(e)
  }

  /** apply<T, Tag>: the modifier a tag stands for; any other value is an array bound. */
  function Apply(t: Type, tag: nat): (r: Type)
    ensures tag == PointerTag ==> r == PointerTo(t)
    ensures tag == ConstTag ==> r == ConstOf(t)
    ensures tag == LReferenceTag ==> r == LReference(t)
    ensures tag == RReferenceTag ==> r == RReference(t)
    ensures tag == ArrayTag ==> r == UnsizedArray(t)
    ensures tag < PointerTag ==> r == SizedArray(t, tag)
  {
    if tag == PointerTag then PointerTo(t)
    else if tag == ConstTag then ConstOf(t)
    else if tag == LReferenceTag then LReference(t)
    else if tag == RReferenceTag then RReference(t)
    else if tag == ArrayTag then UnsizedArray(t)
    else SizedArray(t, tag)
  }

  /** compose: applies the tags to the base, first tag first. */
  function ComposeFrom(t: Type, tags: seq<nat>): (r: Type)
    ensures BaseOf(r) == BaseOf(t)
    decreases |tags|
  {
    if tags == [] then t else ComposeFrom(Apply(t, tags[0]), tags[1..])
  }

  /** compose_t. */
  function Compose(d: Descriptor): (r: Type)
    ensures BaseOf(r) == BaseOf(d.base)
  {
    ComposeFrom(d.base, d.tags)
  }

  /**
   * decompose_<T, TagStack>: peels the outermost modifier and pushes its tag
   * onto the stack, until only the base is left. `T const[N]` has its own
   * case, pushing N and then Const.
   */
  function DecomposeFrom(t: Type, stack: seq<nat>): (r: Descriptor)
    ensures |r.tags| == |TagsOf(t)| + |stack|
  {
    match t
    case Base(_) => Descriptor(t, stack)
    case PointerTo(e) => DecomposeFrom(e, TypeLists.Push(stack, PointerTag))
    case ConstOf(e) => DecomposeFrom(e, TypeLists.Push(stack, ConstTag))
    case LReference(e) => DecomposeFrom(e, TypeLists.Push(stack, LReferenceTag))
    case RReference(e) => DecomposeFrom(e, TypeLists.Push(stack, RReferenceTag))
    case UnsizedArray(e) => DecomposeFrom(e, TypeLists.Push(stack, ArrayTag))
    case SizedArray(e, n) =>
      if e.ConstOf? then DecomposeFrom(e.qualified, TypeLists.Push(TypeLists.Push(stack, n), ConstTag))
      else DecomposeFrom(e, TypeLists.Push(stack, n))
  }

  /** decompose_t: decomposition from an empty stack. */
  function Decompose(t: Type): (d: Descriptor)
    ensures d.base.Base?
  {
    DecomposeBase(t, []);
    DecomposeFrom(t, [])
  }

  lemma {:induction false} DecomposeBase(t: Type, stack: seq<nat>)
    ensures DecomposeFrom(t, stack).base.Base?
  {
    match t
    case Base(_) =>
    case PointerTo(e) => DecomposeBase(e, TypeLists.Push(stack, PointerTag));
    case ConstOf(e) => DecomposeBase(e, TypeLists.Push(stack, ConstTag));
    case LReference(e) => DecomposeBase(e, TypeLists.Push(stack, LReferenceTag));
    case RReference(e) => DecomposeBase(e, TypeLists.Push(stack, RReferenceTag));
    case UnsizedArray(e) => DecomposeBase(e, TypeLists.Push(stack, ArrayTag));
    case SizedArray(e, n) =>
      if e.ConstOf? {
        DecomposeBase(e.qualified, TypeLists.Push(TypeLists.Push(stack, n), ConstTag));
      } else {
        DecomposeBase(e, TypeLists.Push(stack, n));
      }
  }

  /** Composing tags one list after another is composing the concatenation. */
  lemma {:induction false} ComposeConcat(t: Type, a: seq<nat>, b: seq<nat>)
    ensures ComposeFrom(t, a + b) == ComposeFrom(ComposeFrom(t, a), b)
    decreases |a|
  {
    if a == [] {
      assert a + b == b;
    } else {
      assert (a + b)[0] == a[0] && (a + b)[1..] == a[1..] + b;
      ComposeConcat(Apply(t, a[0]), a[1..], b);
    }
  }

  /** The base a type is built on. */
  ghost function BaseOf(t: Type): Type
  {
    match t
    case Base(_) => t
    case PointerTo(e) => BaseOf(e)
    case ConstOf(e) => BaseOf(e)
    case LReference(e) => BaseOf(e)
    case RReference(e) => BaseOf(e)
    case UnsizedArray(e) => BaseOf(e)
    case SizedArray(e, _) => BaseOf(e)
  }

  /** The reference tag order: a modifier's tag comes after all tags of the type it modifies. */
  ghost function TagsOf(t: Type): seq<nat>
  {
    match t
    case Base(_) => []
    case PointerTo(e) => TagsOf(e) + [PointerTag]
    case ConstOf(e) => TagsOf(e) + [ConstTag]
    case LReference(e) => TagsOf(e) + [LReferenceTag]
    case RReference(e) => TagsOf(e) + [RReferenceTag]
    case UnsizedArray(e) => TagsOf(e) + [ArrayTag]
    case SizedArray(e, n) => TagsOf(e) + [n]
  }

  /**
   * Decomposing onto a stack puts the type's tags, innermost first, in front
   * of the stack; the `T const[N]` case agrees with peeling [N] and then
   * const one at a time.
   */
  lemma {:induction false} DecomposeInnermostFirst(t: Type, stack: seq<nat>)
    ensures DecomposeFrom(t, stack) == Descriptor(BaseOf(t), TagsOf(t) + stack)
    decreases t, 1
  {
    match t
    case Base(_) =>
    case PointerTo(e) => PeelTag(e, PointerTag, stack);
    case ConstOf(e) => PeelTag(e, ConstTag, stack);
    case LReference(e) => PeelTag(e, LReferenceTag, stack);
    case RReference(e) => PeelTag(e, RReferenceTag, stack);
    case UnsizedArray(e) => PeelTag(e, ArrayTag, stack);
    case SizedArray(e, n) =>
      if e.ConstOf? {
        PeelTag(e.qualified, ConstTag, [n] + stack);
        Reassociate(TagsOf(e.qualified) + [ConstTag], [n], stack);
      } else {
        PeelTag(e, n, stack);
      }
  }

  /** The step of DecomposeInnermostFirst: one tag pushed in front of the stack. */
  lemma {:induction false} PeelTag(e: Type, tag: nat, stack: seq<nat>)
    ensures DecomposeFrom(e, TypeLists.Push(stack, tag)) == Descriptor(BaseOf(e), (TagsOf(e) + [tag]) + stack)
    decreases e, 2
  {
    assert TypeLists.Push(stack, tag) == [tag] + stack;
    DecomposeInnermostFirst(e, [tag] + stack);
    Reassociate(TagsOf(e), [tag], stack);
  }

  lemma Reassociate(a: seq<nat>, b: seq<nat>, c: seq<nat>)
    ensures a + (b + c) == (a + b) + c
  {
  }

  /** Applying the reference tags to the base rebuilds the type, when no bound collides with a modifier tag. */
  lemma {:induction false} ComposeTagsOf(t: Type)
    requires BoundsBelowTags(t)
    ensures ComposeFrom(BaseOf(t), TagsOf(t)) == t
    decreases t, 1
  {
    match t
    case Base(_) =>
    case PointerTo(e) => ComposeLast(e, PointerTag);
    case ConstOf(e) => ComposeLast(e, ConstTag);
    case LReference(e) => ComposeLast(e, LReferenceTag);
    case RReference(e) => ComposeLast(e, RReferenceTag);
    case UnsizedArray(e) => ComposeLast(e, ArrayTag);
    case SizedArray(e, n) => ComposeLast(e, n);
  }

  /** The step of ComposeTagsOf: the last tag applies the outermost modifier. */
  lemma {:induction false} ComposeLast(e: Type, tag: nat)
    requires BoundsBelowTags(e)
    ensures ComposeFrom(BaseOf(e), TagsOf(e) + [tag]) == Apply(e, tag)
    decreases e, 2
  {
    ComposeTagsOf(e);
    ComposeConcat(BaseOf(e), TagsOf(e), [tag]);
    assert [tag][1..] == [];
  }

  /** compose_t<decompose_t<T>> is T whenever no array bound collides with a modifier tag. */
  lemma RoundTrip(t: Type)
    requires BoundsBelowTags(t)
    ensures Compose(Decompose(t)) == t
  {
    DecomposeInnermostFirst(t, []);
    assert TagsOf(t) + [] == TagsOf(t);
    ComposeTagsOf(t);
  }

  /** A size_t tag applied to a type adds exactly that tag on the outside. */
  lemma TagsOfApply(t: Type, tag: nat)
    requires tag <= SizeMax
    ensures BaseOf(Apply(t, tag)) == BaseOf(t) && TagsOf(Apply(t, tag)) == TagsOf(t) + [tag]
  {
  }

  lemma {:induction false} TagsOfCompose(t: Type, tags: seq<nat>)
    requires ValidTags(tags)
    ensures BaseOf(ComposeFrom(t, tags)) == BaseOf(t)
    ensures TagsOf(ComposeFrom(t, tags)) == TagsOf(t) + tags
    decreases |tags|
  {
    if tags == [] {
      assert TagsOf(t) + [] == TagsOf(t);
    } else {
      TagsOfApply(t, tags[0]);
      TagsOfCompose(Apply(t, tags[0]), tags[1..]);
      assert (TagsOf(t) + [tags[0]]) + tags[1..] == TagsOf(t) + tags;
    }
  }

  /** decompose_t<compose_t<D>> is D for a base type under any size_t tags. */
  lemma RoundTripDescriptor(d: Descriptor)
    requires d.base.Base? && ValidTags(d.tags)
    ensures Decompose(Compose(d)) == d
  {
    var c := Compose(d);
    TagsOfCompose(d.base, d.tags);
    assert TagsOf(d.base) == [] && BaseOf(d.base) == d.base;
    assert BaseOf(c) == d.base && TagsOf(c) == d.tags;
    DecomposeInnermostFirst(c, []);
    assert DecomposeFrom(c, []) == Descriptor(d.base, d.tags + []);
    assert d.tags + [] == d.tags;
  }

  /** An array whose bound equals the pointer tag comes back as a pointer. */
  lemma BoundCollidesWithPointerTag(b: nat)
    ensures Decompose(SizedArray(Base(b), PointerTag)) == Descriptor(Base(b), [PointerTag])
    ensures Compose(Decompose(SizedArray(Base(b), PointerTag))) == PointerTo(Base(b))
  {
    DecomposeInnermostFirst(SizedArray(Base(b), PointerTag), []);
    assert TagsOf(SizedArray(Base(b), PointerTag)) + [] == [PointerTag];
    assert [PointerTag][1..] == [];
    assert ComposeFrom(Base(b), [PointerTag]) == ComposeFrom(Apply(Base(b), PointerTag), []);
  }

  /** `const int*` is int with the tags Const then Pointer, and `int const[3]` is int with Const then 3. */
  lemma InnermostFirstExamples(b: nat)
    ensures Decompose(PointerTo(ConstOf(Base(b)))) == Descriptor(Base(b), [ConstTag, PointerTag])
    ensures Decompose(SizedArray(ConstOf(Base(b)), 3)) == Descriptor(Base(b), [ConstTag, 3])
  {
    DecomposeInnermostFirst(PointerTo(ConstOf(Base(b))), []);
    assert TagsOf(ConstOf(Base(b))) == [ConstTag];
    assert TagsOf(PointerTo(ConstOf(Base(b)))) + [] == [ConstTag, PointerTag];
    DecomposeInnermostFirst(SizedArray(ConstOf(Base(b)), 3), []);
    assert TagsOf(SizedArray(ConstOf(Base(b)), 3)) + [] == [ConstTag, 3];
    assert BaseOf(SizedArray(ConstOf(Base(b)), 3)) == Base(b);
  }

  /** base_type_t. */
  function BaseType(d: Descriptor): (r: Type)
    ensures r == d.base
  {
    d.base
  }

  /** replace_base_type_t: a new base under the same tags. */
  function ReplaceBaseType(d: Descriptor, t: Type): (r: Descriptor)
    ensures BaseType(r) == t && r.tags == d.tags
  {
    Descriptor(t, d.tags)
  }

  /** remove_all_const_t: every Const tag dropped, the other tags kept in order. */
  function RemoveAllConst(d: Descriptor): (r: Descriptor)
    ensures r.base == d.base
    ensures ConstTag !in r.tags
    ensures forall x :: x != ConstTag ==> (x in r.tags <==> x in d.tags)
  {
    Descriptor(d.base, TypeLists.Remove(d.tags, ConstTag))
  }

  /** remove_all_pointers_t: every Pointer tag dropped, the other tags kept in order. */
  function RemoveAllPointers(d: Descriptor): (r: Descriptor)
    ensures r.base == d.base
    ensures PointerTag !in r.tags
    ensures forall x :: x != PointerTag ==> (x in r.tags <==> x in d.tags)
  {
    Descriptor(d.base, TypeLists.Remove(d.tags, PointerTag))
  }

  /** Removing a tag splits over the two halves of a tag stack, which keeps the order of the rest. */
  lemma RemoveKeepsOrder(base: Type, a: seq<nat>, b: seq<nat>)
    ensures RemoveAllConst(Descriptor(base, a + b)).tags
         == RemoveAllConst(Descriptor(base, a)).tags + RemoveAllConst(Descriptor(base, b)).tags
    ensures RemoveAllPointers(Descriptor(base, a + b)).tags
         == RemoveAllPointers(Descriptor(base, a)).tags + RemoveAllPointers(Descriptor(base, b)).tags
  {
    TypeLists.RemoveConcat(a, b, ConstTag);
    TypeLists.RemoveConcat(a, b, PointerTag);
  }

  /** array_from_descriptor: the tag values in tag order, or no array when there are no tags. */
  function ArrayFromDescriptor(d: Descriptor): (r: Option<seq<nat>>)
    ensures r.None? <==> d.tags == []
    ensures r.Some? ==> r.value == d.tags
  {
    if d.tags == [] then None else Some(d.tags)
  }
}
