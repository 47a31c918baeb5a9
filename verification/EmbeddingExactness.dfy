/**
 * For which types every question "does it embed that type at this offset" is answered by the existence
 * of a path: the converse of what `Embedding` proves, with a question that is answered wrongly for
 * every other type.
 */
module EmbeddingExactness {
  import opened Embedding
  import opened Options

  // ---- Types as they are laid out in C ----

  /**
   * A member ends before the next one starts. Bit-fields are scalars whose storage begins before
   * their own first bit and ends after their last one.
   */
  predicate LaidAfter(a: Member, b: Member) {
    || a.offset + Size(a.ty) <= b.offset
    || (Strip(a.ty).Scalar? && (a.offset < b.offset || Strip(b.ty).Scalar?))
    || (Strip(b.ty).Scalar? && a.offset + Size(a.ty) < b.offset + Size(b.ty))
  }

  /** Structures as bit-fields and other members come to lie; a union has room for a member, not for nothing. */
  predicate Laid(t: Type) {
    match t
    case Scalar(_, _) => true
    case Lexical(inner) => Laid(inner)
    case ArrayOf(elem, _) => Laid(elem)
    case Struct(_, ms, _) =>
      && (forall i :: 0 <= i < |ms| ==> Laid(ms[i].ty))
      && (forall i, j :: 0 <= i < j < |ms| ==> LaidAfter(ms[i], ms[j]))
    case Union(_, ms, bytes) =>
      && (forall i :: 0 <= i < |ms| ==> Laid(ms[i].ty))
      && (bytes > 0 && |ms| >= 2 ==> exists i :: 0 <= i < |ms| && Size(ms[i].ty) > 0)
  }

  lemma LaidStrip(t: Type)
    requires Laid(t)
    ensures Laid(Strip(t))
  {
  }

  lemma MembersAreLaid(t: Type, i: nat)
    requires (t.Struct? || t.Union?) && Laid(t) && i < |t.members|
    ensures Laid(Strip(t.members[i].ty))
  {
    LaidStrip(t.members[i].ty);
  }

  lemma LaidPair(s: Type, i: nat, j: nat)
    requires s.Struct? && Laid(s) && i < j < |s.members|
    ensures LaidAfter(s.members[i], s.members[j])
  {
  }

  /** A type that the source may be asked about. */
  predicate Askable(t: Type) { WellFormed(t) && Laid(t) && !t.Lexical? && Size(t) > 0 }

  ghost predicate AnswersExactly(first: Type)
    requires WellFormed(first)
  {
    forall second, offset: nat :: offset < Size(first) && Askable(second) ==>
      (Helper(first, second, offset) <==> HasPath(first, second, offset))
  }

  /** "Yes" is answered although no path leads there. */
  ghost predicate Fooled(t: Type, second: Type, offset: nat)
    requires WellFormed(t)
  {
    offset < Size(t) && Askable(second) && Helper(t, second, offset) && !HasPath(t, second, offset)
  }

  /** "No" is answered although a path leads there. */
  ghost predicate Missed(t: Type, second: Type, offset: nat)
    requires WellFormed(t)
  {
    offset < Size(t) && Askable(second) && HasPath(t, second, offset) && !Helper(t, second, offset)
  }

  /** What goes wrong below a union may be made up for by another of its members. */
  predicate SoundUnions(t: Type) {
    match t
    case Scalar(_, _) => true
    case Lexical(inner) => SoundUnions(inner)
    case ArrayOf(elem, length) => length > 0 ==> SoundUnions(elem)
    case Struct(_, ms, _) => forall i :: 0 <= i < |ms| ==> (Size(ms[i].ty) > 0 ==> SoundUnions(ms[i].ty))
    case Union(_, _, _) => Tight(t) && Clear(t)
  }

  // ---- A clear type that is not tight answers "yes" too often ----

  /** Padding that misleads, reached through elements and members that hold something. */
  predicate Misleads(t: Type) {
    match t
    case Scalar(_, _) => false
    case Lexical(inner) => Misleads(inner)
    case ArrayOf(elem, length) => length > 0 && Misleads(elem)
    case Struct(_, ms, _) =>
      exists i :: 0 <= i < |ms| && (Padded(t, i) || (Size(ms[i].ty) > 0 && Misleads(ms[i].ty)))
    case Union(_, _, _) => false
  }

  lemma {:induction false} TightOrMisleads(t: Type)
    requires SoundUnions(t)
    ensures Tight(t) || Misleads(t)
  {
    hide Padded, Clear;
    match t {
      case Scalar(_, _) =>
      case Lexical(inner) => TightOrMisleads(inner);
      case ArrayOf(elem, length) => if length > 0 { TightOrMisleads(elem); }
      case Struct(_, ms, _) =>
        forall i | 0 <= i < |ms| && Size(ms[i].ty) > 0 ensures Tight(ms[i].ty) || Misleads(ms[i].ty) {
          TightOrMisleads(ms[i].ty);
        }
      case Union(_, _, _) =>
    }
  }

  /**
   * A type that `e` is taken for, but none of the types around it: itself, or, for a structure, a longer
   * version of it that goes on with a member which cannot occur inside `top`.
   */
  function Lure(e: Type, top: Type): Type {
    if e.Struct? && |e.members| >= 2
    then Struct("", e.members + [Member("", e.bytes, ArrayOf(top, 1), -1)], e.bytes + Size(top))
    else e
  }

  ghost predicate Within(a: Type, b: Type) { a == b || a < b }

  /** What a loose type is taken for beyond its end can be made a question. */
  predicate Baits(e: Type) {
    WellFormed(e) && Laid(e) && !e.Lexical? && (Size(e) > 0 || (e.Struct? && |e.members| >= 2))
  }

  lemma LureIsAskable(e: Type, top: Type)
    requires Baits(e) && Askable(top)
    ensures Askable(Lure(e, top))
  {
    if e.Struct? && |e.members| >= 2 {
      LongerIsWellFormed(e, Member("", e.bytes, ArrayOf(top, 1), -1), e.bytes + Size(top));
      LongerIsLaid(e, Member("", e.bytes, ArrayOf(top, 1), -1), e.bytes + Size(top));
    }
  }

  lemma LongerIsWellFormed(e: Type, m: Member, bytes: nat)
    requires e.Struct? && e.members != [] && WellFormed(e) && WellFormed(m.ty)
    requires m.offset == e.bytes && m.offset + Size(m.ty) <= bytes
    ensures WellFormed(Struct("", e.members + [m], bytes))
  {
    var ms := e.members + [m];
    forall i | 0 <= i < |ms| ensures WellFormed(ms[i].ty) && ms[i].offset + Size(ms[i].ty) <= bytes {
      if i < |e.members| { assert ms[i] == e.members[i]; }
    }
  }

  lemma LongerIsLaid(e: Type, m: Member, bytes: nat)
    requires e.Struct? && WellFormed(e) && Laid(e) && Laid(m.ty) && m.offset == e.bytes
    ensures Laid(Struct("", e.members + [m], bytes))
  {
    var ms := e.members + [m];
    forall i | 0 <= i < |ms| ensures Laid(ms[i].ty) {
      if i < |e.members| { assert ms[i] == e.members[i]; }
    }
    forall i, j | 0 <= i < j < |ms| ensures LaidAfter(ms[i], ms[j]) {
      assert ms[i] == e.members[i];
      if j < |e.members| { LaidPair(e, i, j); } else { MemberInside(e, i); }
    }
  }

  lemma LureCaught(e: Type, top: Type)
    ensures Matches(e, Lure(e, top), 0)
  {
  }

  lemma LureIsNew(e: Type, top: Type, t: Type)
    requires e < t && Within(t, top)
    ensures Lure(e, top) != t
  {
    if e.Struct? && |e.members| >= 2 {
      assert Lure(e, top).members[|e.members|].ty == ArrayOf(top, 1);
    }
  }

  /** A structure around the lure has other leading members. */
  lemma LureSharesNothing(t: Type, k: nat, e: Type, top: Type)
    requires t.Struct? && k < |t.members| && Within(e, Strip(t.members[k].ty)) && Within(t, top)
    requires e.Struct? && |e.members| >= 2
    ensures !SharesPrefix(t, Lure(e, top))
  {
    var l := Lure(e, top);
    StripWithin(t.members[k].ty);
    if |t.members| > |e.members| {
      assert l.members[|e.members|].ty == ArrayOf(top, 1);
      assert t.members[|e.members|].ty < t;
    } else {
      assert l.members[k] == e.members[k];
      assert e.members[k].ty < e;
    }
  }

  /** Nor does it have the leading members of a union inside it. */
  lemma UnionSharesNothing(t: Type, k: nat, e: Type)
    requires t.Struct? && Laid(t) && k < |t.members| && Within(e, Strip(t.members[k].ty))
    requires t.members[k].offset == 0 && !Strip(t.members[k].ty).Scalar?
    requires e.Union? && Laid(e) && Size(e) > 0
    ensures !SharesPrefix(t, e)
  {
    StripWithin(t.members[k].ty);
    if k < |e.members| {
      assert e.members[k].ty < e;
    } else if |e.members| >= 2 {
      var i :| 0 <= i < |e.members| && Size(e.members[i].ty) > 0;
      assert e.members[i].ty < e;
      LaidPair(t, i, k);
      StripWithin(t.members[i].ty);
    }
  }

  lemma StripWithin(t: Type)
    ensures Within(Strip(t), t)
  {
  }

  lemma LureMissed(t: Type, k: nat, e: Type, top: Type)
    requires t.Struct? && Laid(t) && k < |t.members| && Within(e, Strip(t.members[k].ty)) && Within(t, top)
    requires t.members[k].offset == 0 && !Strip(t.members[k].ty).Scalar? && Laid(e) && (e.Union? ==> Size(e) > 0)
    ensures !Matches(t, Lure(e, top), 0)
  {
    hide SharesPrefix, Laid;
    StripWithin(t.members[k].ty);
    assert e < t by { assert t.members[k].ty < t; }
    LureIsNew(e, top, t);
    if e.Struct? && |e.members| >= 2 {
      LureSharesNothing(t, k, e, top);
    } else if e.Union? {
      UnionSharesNothing(t, k, e);
    } else if e.Struct? {
      FewMembersShareNothing(t, e);
    }
  }

  lemma FewMembersShareNothing(first: Type, second: Type)
    requires (first.Struct? || first.Union?) && (second.Struct? || second.Union?) && |second.members| < 2
    ensures !SharesPrefix(first, second)
  {
  }

  /** What a loose type is taken for beyond its end: its elements, or itself. */
  function Bait(t: Type): Type
    requires Loose(t)
  {
    if t.ArrayOf? then Strip(t.elem) else t
  }

  lemma BaitFits(t: Type)
    requires WellFormed(t) && Laid(t) && Loose(t)
    ensures Within(Bait(t), t) && Baits(Bait(t))
  {
    if t.ArrayOf? {
      StripWithin(t.elem);
      LaidStrip(t.elem);
      WellFormedStrip(t.elem);
    }
  }

  lemma BaitTaken(t: Type, top: Type) returns (path: seq<nat>)
    requires WellFormed(t) && Loose(t)
    ensures LedTo(t, Lure(Bait(t), top), Size(t), path) && InView(t, Size(t), path)
  {
    hide Matches;
    LureCaught(Bait(t), top);
    if t.ArrayOf? {
      path := [t.length];
      assert (t.length + 1) * Size(t.elem) == t.length * Size(t.elem) + Size(t.elem);
      assert CanStray(t, Size(t), t.length);
      assert LedTo(Strip(t.elem), Lure(Bait(t), top), 0, path[1..]);
    } else {
      path := [];
    }
  }

  function AfterMember(s: Type, i: nat): nat
    requires s.Struct? && i < |s.members|
  {
    s.members[i].offset + Size(s.members[i].ty)
  }

  /** Where a loose member ends and padding follows, the descent strays into that member. */
  lemma PaddingIsEntered(s: Type, i: nat)
    requires s.Struct? && WellFormed(s) && Laid(s) && i < |s.members| && Padded(s, i)
    ensures CanStray(s, AfterMember(s, i), i) && MemberAt(s, AfterMember(s, i)) == Some(i)
    ensures AfterMember(s, i) < s.bytes
  {
    hide WellFormed, Laid, MemberAt;
    forall a | 0 <= a < i
      ensures s.members[a].offset < AfterMember(s, i)
              || (s.members[a].offset == AfterMember(s, i) && Size(s.members[a].ty) == 0)
    {
      LaidPair(s, a, i);
    }
    MemberInside(s, if i + 1 < |s.members| then i + 1 else i);
    MemberAtPadding(s, AfterMember(s, i), i);
  }

  function BaitOf(s: Type, i: nat): Type
    requires s.Struct? && i < |s.members| && Padded(s, i)
  {
    Bait(Strip(s.members[i].ty))
  }

  /** Padding after a loose member, an array of length zero for one, is taken for its elements. */
  lemma PaddingMisleads(s: Type, i: nat, top: Type)
    requires s.Struct? && WellFormed(s) && Laid(s) && Clear(s) && i < |s.members| && Padded(s, i)
    requires Within(s, top) && Askable(top)
    ensures Within(BaitOf(s, i), s) && Baits(BaitOf(s, i))
    ensures Fooled(s, Lure(BaitOf(s, i), top), AfterMember(s, i))
  {
    hide Helper, WellFormed, Laid, Clear, Matches, Loose, Lure, MemberAt, CanStray;
    var t, offset := Strip(s.members[i].ty), AfterMember(s, i);
    PaddingIsEntered(s, i);
    MembersAreWellFormed(s, i);
    MembersAreLaid(s, i);
    BaitFits(t);
    StripWithin(s.members[i].ty);
    LureIsAskable(Bait(t), top);
    BaitIsFound(s, i, top);
    PaddingHasNoPath(s, i, top);
  }

  lemma BaitIsFound(s: Type, i: nat, top: Type)
    requires s.Struct? && WellFormed(s) && i < |s.members| && Padded(s, i)
    requires CanStray(s, AfterMember(s, i), i) && MemberAt(s, AfterMember(s, i)) == Some(i)
    ensures Helper(s, Lure(BaitOf(s, i), top), AfterMember(s, i))
  {
    hide Helper, WellFormed, Matches, Loose, Lure, MemberAt, LedTo, InView;
    var t, offset := Strip(s.members[i].ty), AfterMember(s, i);
    MembersAreWellFormed(s, i);
    var path := BaitTaken(t, top);
    LedVia(s, Lure(Bait(t), top), offset, i, path);
    LedIsFound(s, Lure(Bait(t), top), offset, [i] + path);
  }

  lemma PaddingHasNoPath(s: Type, i: nat, top: Type)
    requires s.Struct? && WellFormed(s) && Laid(s) && Clear(s) && i < |s.members| && Padded(s, i) && Within(s, top)
    requires MemberAt(s, AfterMember(s, i)) == Some(i)
    requires Baits(BaitOf(s, i)) && Within(BaitOf(s, i), Strip(s.members[i].ty))
    ensures !HasPath(s, Lure(BaitOf(s, i), top), AfterMember(s, i))
  {
    hide WellFormed, Laid, Clear, Loose, Lure, Matches, MemberAt, Bait, BaitOf, Padded, Begins;
    var second, offset := Lure(BaitOf(s, i), top), AfterMember(s, i);
    if offset == 0 {
      PaddedIsLoose(s, i);
      LureMissed(s, i, BaitOf(s, i), top);
    }
    forall path ensures !PathTo(s, second, offset, path) {
      if path == [] {
        if offset > 0 { NoMatchInside(s, second, offset); }
      } else if CanEnter(s, offset, path[0]) && PathTo(s, second, offset, path) {
        EntryIsSeen(s, second, offset, path);
      }
    }
  }

  lemma PaddedIsLoose(s: Type, i: nat)
    requires s.Struct? && i < |s.members| && Padded(s, i)
    ensures !Strip(s.members[i].ty).Scalar?
  {
  }

  lemma NoMatchInside(first: Type, second: Type, offset: nat)
    requires offset > 0
    ensures !Matches(first, second, offset)
  {
  }

  /** In a clear type, the first step of a path is seen. */
  lemma EntryIsSeen(t: Type, second: Type, offset: nat, path: seq<nat>)
    requires WellFormed(t) && Clear(t) && path != [] && PathTo(t, second, offset, path)
    ensures IsSeen(t, offset, path[0])
  {
    hide PathTo, WellFormed, Clear, IsSeen;
    ClearInView(t, second, offset, path);
  }

  /** Only one element or member that is seen can be entered, twins apart. */
  lemma OnlyStep(t: Type, offset: nat, k: nat, j: nat)
    requires WellFormed(t) && (t.Struct? || t.ArrayOf?) && CanEnter(t, offset, k) && CanEnter(t, offset, j)
    requires IsSeen(t, offset, k) && IsSeen(t, offset, j)
    ensures Entered(t, offset, k) == Entered(t, offset, j)
  {
    if t.ArrayOf? {
      ElementAt(offset, k, Size(t.elem));
      ElementAt(offset, j, Size(t.elem));
    }
  }

  /** Paths of a clear type go on inside the element or member that is seen. */
  lemma PathGoesOn(t: Type, second: Type, offset: nat, k: nat)
    requires WellFormed(t) && Clear(t) && (t.Struct? || t.ArrayOf?) && CanEnter(t, offset, k) && IsSeen(t, offset, k)
    requires HasPath(t, second, offset) && !Matches(t, second, offset)
    ensures HasPath(Entered(t, offset, k).0, second, Entered(t, offset, k).1)
  {
    hide WellFormed, Clear, Matches, IsSeen, Entered, CanEnter;
    var path :| PathTo(t, second, offset, path);
    EntryIsSeen(t, second, offset, path);
    OnlyStep(t, offset, k, path[0]);
    assert PathTo(Entered(t, offset, k).0, second, Entered(t, offset, k).1, path[1..]);
  }

  lemma FoundIsSeen(t: Type, second: Type, offset: nat, k: nat)
    requires WellFormed(t) && Clear(t) && CanEnter(t, offset, k) && WellFormed(Entered(t, offset, k).0)
    requires Helper(Entered(t, offset, k).0, second, Entered(t, offset, k).1) && Size(second) > 0
    ensures IsSeen(t, offset, k) && Helper(t, second, offset)
  {
    hide WellFormed, Clear, IsSeen, Entered, CanEnter, Helper, Begins, LedTo, InView;
    var (inner, o) := Entered(t, offset, k);
    EnteredIsWellFormed(t, offset, k);
    var path := FoundIsLed(inner, second, o);
    LedBegins(inner, second, o, path);
    ClearStep(t, offset, k);
    StepIsTaken(t, second, offset, k);
  }

  lemma LureMissedOutside(t: Type, k: nat, offset: nat, e: Type, top: Type)
    requires Laid(t) && (t.Struct? || t.ArrayOf?) && CanEnter(t, offset, k) && Within(t, top)
    requires Within(e, Entered(t, offset, k).0) && Baits(e) && !Entered(t, offset, k).0.Scalar?
    ensures Within(e, t) && !Matches(t, Lure(e, top), offset)
  {
    hide Laid, Lure, SharesPrefix;
    if t.ArrayOf? {
      StripWithin(t.elem);
      LureIsNew(e, top, t);
    } else {
      StripWithin(t.members[k].ty);
      if offset == 0 { LureMissed(t, k, e, top); }
    }
  }

  lemma ScalarIsNotFooled(t: Type, second: Type, offset: nat)
    requires WellFormed(t) && Fooled(t, second, offset)
    ensures !t.Scalar?
  {
    assert t.Scalar? ==> PathTo(t, second, offset, []);
  }

  /** Out of an element, out of a member: what is taken for something inside is so outside. */
  lemma FooledOutside(t: Type, k: nat, offset: nat, e: Type, top: Type)
    requires WellFormed(t) && Laid(t) && Clear(t) && (t.Struct? || t.ArrayOf?) && CanEnter(t, offset, k)
    requires Within(t, top) && offset < Size(t) && Within(e, Entered(t, offset, k).0) && Baits(e)
    requires WellFormed(Entered(t, offset, k).0)
    requires Fooled(Entered(t, offset, k).0, Lure(e, top), Entered(t, offset, k).1)
    ensures Within(e, t) && Fooled(t, Lure(e, top), offset)
  {
    hide Helper, HasPath, WellFormed, Laid, Clear, Lure, Matches, Entered, CanEnter, IsSeen, Baits;
    ScalarIsNotFooled(Entered(t, offset, k).0, Lure(e, top), Entered(t, offset, k).1);
    LureMissedOutside(t, k, offset, e, top);
    FoundIsSeen(t, Lure(e, top), offset, k);
    if HasPath(t, Lure(e, top), offset) {
      PathGoesOn(t, Lure(e, top), offset, k);
    }
  }

  /** In every clear type with misleading padding some question is answered "yes" that is not so. */
  lemma {:induction false} MisleadingFools(t: Type, top: Type) returns (e: Type, offset: nat)
    requires WellFormed(t) && Laid(t) && Clear(t) && !t.Lexical? && Within(t, top) && Askable(top) && Misleads(t)
    ensures Within(e, t) && Baits(e) && Fooled(t, Lure(e, top), offset)
    decreases t
  {
    hide Fooled, Lure, Padded, WellFormed, Laid, Clear, Baits, Askable;
    match t {
      case ArrayOf(elem, length) =>
        ArrayParts(t);
        StripWithin(elem);
        e, offset := MisleadingFools(Strip(elem), top);
        FooledInElement(t, offset, e, top);
      case Struct(_, ms, _) =>
        var i :| 0 <= i < |ms| && (Padded(t, i) || (Size(ms[i].ty) > 0 && Misleads(ms[i].ty)));
        if Padded(t, i) {
          e, offset := BaitOf(t, i), AfterMember(t, i);
          PaddingMisleads(t, i, top);
        } else {
          MemberParts(t, i);
          StripWithin(ms[i].ty);
          e, offset := MisleadingFools(Strip(ms[i].ty), top);
          FooledInMember(t, i, offset, e, top);
          offset := ms[i].offset + offset;
        }
    }
  }

  lemma ArrayParts(t: Type)
    requires t.ArrayOf? && WellFormed(t) && Laid(t) && Clear(t) && Misleads(t)
    ensures WellFormed(Strip(t.elem)) && Laid(Strip(t.elem)) && Clear(Strip(t.elem)) && Misleads(Strip(t.elem))
  {
    WellFormedStrip(t.elem);
    LaidStrip(t.elem);
    ClearStrip(t.elem);
    MisleadsStrip(t.elem);
  }

  lemma MemberParts(t: Type, i: nat)
    requires t.Struct? && WellFormed(t) && Laid(t) && Clear(t) && i < |t.members|
    requires Size(t.members[i].ty) > 0 && Misleads(t.members[i].ty)
    ensures var inner := Strip(t.members[i].ty);
            WellFormed(inner) && Laid(inner) && Clear(inner) && Misleads(inner)
  {
    hide Misleads;
    WellFormedStrip(t.members[i].ty);
    LaidStrip(t.members[i].ty);
    ClearStrip(t.members[i].ty);
    MisleadsStrip(t.members[i].ty);
  }

  lemma FooledInElement(t: Type, offset: nat, e: Type, top: Type)
    requires t.ArrayOf? && t.length > 0 && WellFormed(t) && Laid(t) && Clear(t) && Within(t, top)
    requires WellFormed(Strip(t.elem)) && Within(e, Strip(t.elem)) && Baits(e)
    requires Fooled(Strip(t.elem), Lure(e, top), offset)
    ensures Within(e, t) && Fooled(t, Lure(e, top), offset)
  {
    hide Helper, HasPath, WellFormed, Laid, Clear, Lure, Baits;
    FirstElement(t, offset);
    FooledOutside(t, 0, offset, e, top);
  }

  lemma FirstElement(t: Type, offset: nat)
    requires t.ArrayOf? && t.length > 0 && offset < Size(t.elem)
    ensures CanEnter(t, offset, 0) && Entered(t, offset, 0) == (Strip(t.elem), offset) && offset < Size(t)
  {
    ProductMonotone(1, t.length, Size(t.elem));
  }

  lemma FooledInMember(t: Type, i: nat, offset: nat, e: Type, top: Type)
    requires t.Struct? && i < |t.members| && WellFormed(t) && Laid(t) && Clear(t) && Within(t, top)
    requires WellFormed(Strip(t.members[i].ty)) && Within(e, Strip(t.members[i].ty)) && Baits(e)
    requires Fooled(Strip(t.members[i].ty), Lure(e, top), offset)
    ensures Within(e, t) && Fooled(t, Lure(e, top), t.members[i].offset + offset)
  {
    hide Helper, HasPath, WellFormed, Laid, Clear, Lure, Baits;
    MemberInside(t, i);
    FooledOutside(t, i, t.members[i].offset + offset, e, top);
  }

  lemma {:induction false} MisleadsStrip(t: Type)
    requires Misleads(t)
    ensures Misleads(Strip(t))
  {
    hide Padded;
    if t.Lexical? { MisleadsStrip(t.inner); }
  }

  // ---- A tight type that is not clear answers "no" too often ----

  /** Something hidden, reached through elements and members that hold something. */
  predicate Hides(t: Type) {
    match t
    case Scalar(_, _) => false
    case Lexical(inner) => Hides(inner)
    case ArrayOf(elem, length) => length > 0 && Hides(elem)
    case Struct(_, ms, _) => HidesHere(t) || exists i :: 0 <= i < |ms| && Size(ms[i].ty) > 0 && Hides(ms[i].ty)
    case Union(_, _, _) => false
  }

  predicate HidesHere(s: Type)
    requires s.Struct?
  {
    exists j, offset :: 0 <= j < |s.members| && 0 <= offset < s.bytes && Hidden(s, j, offset)
  }

  lemma {:induction false} ClearOrHides(t: Type)
    requires SoundUnions(t)
    ensures Clear(t) || Hides(t)
  {
    hide Hidden, Tight;
    match t {
      case Scalar(_, _) =>
      case Lexical(inner) => ClearOrHides(inner);
      case ArrayOf(elem, length) => if length > 0 { ClearOrHides(elem); }
      case Struct(_, ms, _) =>
        forall i | 0 <= i < |ms| && Size(ms[i].ty) > 0 ensures Clear(ms[i].ty) || Hides(ms[i].ty) {
          ClearOrHides(ms[i].ty);
        }
      case Union(_, _, _) =>
    }
  }

  lemma {:induction false} HidesStrip(t: Type)
    requires Hides(t)
    ensures Hides(Strip(t))
  {
    hide HidesHere;
    if t.Lexical? { HidesStrip(t.inner); }
  }

  /** The types that begin at an offset of a tight type, with the path that leads there. */
  lemma BeginsInside(t: Type, offset: nat) returns (e: Type, path: seq<nat>)
    requires WellFormed(t) && Laid(t) && Tight(t) && !t.Lexical? && offset < Size(t) && Begins(t, offset)
    ensures PathTo(t, e, offset, path) && Askable(e) && offset + Size(e) <= Size(t)
    ensures t.Scalar? ==> e == t && offset == 0
    decreases t
  {
    if offset == 0 {
      return t, [];
    }
    hide PathTo, WellFormed, Laid, Tight, Askable, Begins;
    var k := BeginsAtStep(t, offset);
    var (inner, o) := Entered(t, offset, k);
    StepStaysInside(t, offset, k);
    var more;
    e, more := BeginsInside(inner, o);
    EntryFits(t, offset, k);
    path := [k] + more;
    PathVia(t, e, offset, k, more);
  }

  lemma BeginsAtStep(t: Type, offset: nat) returns (k: nat)
    requires WellFormed(t) && offset > 0 && Begins(t, offset)
    ensures !t.Scalar? && CanStep(t, offset, k) && Begins(Entered(t, offset, k).0, Entered(t, offset, k).1)
  {
    if t.ArrayOf? {
      k := BeginsAtElement(t, offset);
    } else if t.Struct? {
      k := BeginsAtMember(t, offset);
    } else {
      k := BeginsAtChoice(t, offset);
    }
  }

  lemma BeginsAtElement(t: Type, offset: nat) returns (k: nat)
    requires t.ArrayOf? && WellFormed(t) && offset > 0 && Begins(t, offset)
    ensures CanStep(t, offset, k) && Begins(Entered(t, offset, k).0, Entered(t, offset, k).1)
  {
    k := Quotient(offset, Size(t.elem));
  }

  lemma BeginsAtMember(t: Type, offset: nat) returns (k: nat)
    requires t.Struct? && offset > 0 && Begins(t, offset)
    ensures CanStep(t, offset, k) && Begins(Entered(t, offset, k).0, Entered(t, offset, k).1)
  {
    hide Strip;
    k :| 0 <= k < |t.members| && CanStep(t, offset, k)
         && Begins(Strip(t.members[k].ty), offset - t.members[k].offset);
  }

  lemma BeginsAtChoice(t: Type, offset: nat) returns (k: nat)
    requires !t.ArrayOf? && !t.Struct? && offset > 0 && Begins(t, offset)
    ensures t.Union? && CanStep(t, offset, k)
    ensures Begins(Entered(t, offset, k).0, Entered(t, offset, k).1)
  {
    k :| 0 <= k < |t.members| && CanStep(t, offset, k) && Begins(Strip(t.members[k].ty), offset);
  }

  lemma NothingBeginsBeyond(t: Type, offset: nat)
    requires WellFormed(t) && !Loose(t) && offset >= Size(t)
    ensures !Begins(t, offset)
  {
    if t.Struct? || t.Union? {
      forall k: nat ensures !CanStep(t, offset, k) { NoStepBeyondTheEnd(t, offset, k); }
    }
  }

  lemma StepStaysInside(t: Type, offset: nat, k: nat)
    requires WellFormed(t) && Laid(t) && Tight(t) && offset < Size(t) && CanStep(t, offset, k)
    requires Begins(Entered(t, offset, k).0, Entered(t, offset, k).1)
    ensures CanEnter(t, offset, k)
    ensures var (inner, o) := Entered(t, offset, k);
            WellFormed(inner) && Laid(inner) && Tight(inner) && !inner.Lexical? && o < Size(inner) && inner < t
  {
    hide Begins, Loose;
    EnteredIsWellFormed(t, offset, k);
    match t {
      case ArrayOf(elem, length) =>
        if k >= length { ProductMonotone(length, k, Size(elem)); }
        LaidStrip(elem);
        TightStrip(elem);
      case Struct(_, ms, _) =>
        LaidStrip(ms[k].ty);
        if CanStray(t, offset, k) {
          assert !Padded(t, k);
          NothingBeginsBeyond(Strip(ms[k].ty), offset - ms[k].offset);
        }
        TightStrip(ms[k].ty);
      case Union(_, ms, _) =>
        LaidStrip(ms[k].ty);
        TightStrip(ms[k].ty);
    }
  }

  /** What is entered ends inside. */
  lemma EntryFits(t: Type, offset: nat, k: nat)
    requires WellFormed(t) && CanEnter(t, offset, k)
    ensures var (inner, o) := Entered(t, offset, k); offset - o + Size(inner) <= Size(t)
  {
    if t.ArrayOf? {
      ProductMonotone(k + 1, t.length, Size(t.elem));
      assert (k + 1) * Size(t.elem) == k * Size(t.elem) + Size(t.elem);
    }
  }

  /** A path to a scalar ends inside. */
  lemma {:induction false} ScalarFits(t: Type, second: Type, offset: nat, path: seq<nat>)
    requires WellFormed(t) && second.Scalar? && PathTo(t, second, offset, path)
    ensures offset + Size(second) <= Size(t)
    decreases |path|
  {
    if path != [] {
      var (inner, o) := Entered(t, offset, path[0]);
      EnteredIsWellFormed(t, offset, path[0]);
      EntryFits(t, offset, path[0]);
      hide PathTo, CanEnter, Entered, WellFormed;
      ScalarFits(inner, second, o, path[1..]);
    }
  }

  lemma ScalarFound(t: Type, second: Type, offset: nat)
    requires t.Scalar? && WellFormed(t) && Helper(t, second, offset)
    ensures t == second && offset == 0
  {
  }

  lemma PathVia(first: Type, second: Type, offset: nat, k: nat, more: seq<nat>)
    requires CanEnter(first, offset, k)
    requires PathTo(Entered(first, offset, k).0, second, Entered(first, offset, k).1, more)
    ensures PathTo(first, second, offset, [k] + more)
  {
    assert ([k] + more)[1..] == more;
  }

  lemma HelperInMember(s: Type, second: Type, offset: nat) returns (m: nat)
    requires s.Struct? && WellFormed(s) && Helper(s, second, offset) && !Matches(s, second, offset)
    ensures MemberAt(s, offset) == Some(m) && CanStep(s, offset, m)
    ensures var (inner, o) := Entered(s, offset, m); WellFormed(inner) && Helper(inner, second, o)
  {
    hide Matches;
    m := MemberAt(s, offset).value;
    MemberAtSteps(s, offset);
    WellFormedStrip(s.members[m].ty);
  }

  lemma HiderComesFirst(s: Type, j: nat)
    requires s.Struct? && j < |s.members| && Size(s.members[j].ty) > 0
    ensures var m := MemberAt(s, s.members[j].offset); m.Some? ==> m.value <= j
  {
    StopMeans(s.members, s.members[j].offset, 0);
  }

  /** A hidden scalar is not found in the member that hides it. */
  lemma ScalarIsMissed(s: Type, j: nat)
    requires s.Struct? && WellFormed(s) && Laid(s) && Tight(s) && j < |s.members|
    requires Strip(s.members[j].ty).Scalar? && Size(s.members[j].ty) > 0 && !Finds(s, s.members[j].offset, j)
    ensures !Helper(s, Strip(s.members[j].ty), s.members[j].offset)
  {
    hide Helper, WellFormed, Laid, Tight, MemberAt, CanStep;
    var offset, second := s.members[j].offset, Strip(s.members[j].ty);
    if Helper(s, second, offset) {
      var m := HelperInMember(s, second, offset);
      HiderComesFirst(s, j);
      if Strip(s.members[m].ty).Scalar? {
        ScalarFound(Strip(s.members[m].ty), second, offset - s.members[m].offset);
        assert false;
      } else {
        LaidPair(s, m, j);
        NotInBefore(s, m, second, offset);
      }
    }
  }

  /** In a tight structure a member does not lead to a scalar that ends after it. */
  lemma NotInBefore(s: Type, m: nat, second: Type, offset: nat)
    requires s.Struct? && WellFormed(s) && Tight(s) && m < |s.members| && CanStep(s, offset, m)
    requires second.Scalar? && Size(second) > 0 && s.members[m].offset + Size(s.members[m].ty) < offset + Size(second)
    requires WellFormed(Strip(s.members[m].ty))
    ensures !Helper(Strip(s.members[m].ty), second, offset - s.members[m].offset)
  {
    hide Helper, WellFormed, Tight, Loose, LedTo, PathTo, InView;
    var t, o := Strip(s.members[m].ty), offset - s.members[m].offset;
    if Helper(t, second, o) {
      if CanStray(s, offset, m) {
        NotLoose(s, m, offset);
        var path := FoundIsLed(t, second, o);
        NothingBeyondTheEnd(t, second, o, path);
      } else {
        TightMember(s, m);
        var path := FoundIsPath(t, second, o);
        ScalarFits(t, second, o, path);
      }
    }
  }

  lemma NotLoose(s: Type, m: nat, offset: nat)
    requires s.Struct? && Tight(s) && CanStray(s, offset, m)
    ensures !Loose(Strip(s.members[m].ty))
  {
    assert !Padded(s, m);
  }

  lemma TightMember(s: Type, m: nat)
    requires s.Struct? && Tight(s) && m < |s.members| && Size(s.members[m].ty) > 0
    ensures Tight(Strip(s.members[m].ty))
  {
    TightStrip(s.members[m].ty);
  }

  /** What hides the inside of an array, structure or union is a bit-field whose storage reaches back into it. */
  lemma HiderIsScalar(s: Type, j: nat, offset: nat) returns (m: nat)
    requires s.Struct? && WellFormed(s) && Laid(s) && j < |s.members| && Covers(s.members[j], offset)
    requires !Strip(s.members[j].ty).Scalar? && !Finds(s, offset, j)
    ensures MemberAt(s, offset) == Some(m) && Strip(s.members[m].ty).Scalar? && offset > 0
    ensures s.members[m].offset < offset
            || (s.members[m].offset == offset
                && offset + Size(s.members[m].ty) > s.members[j].offset + Size(s.members[j].ty))
  {
    hide WellFormed, Laid;
    var ms, k := s.members, Stop(s.members, offset, 0);
    StopMeans(ms, offset, 0);
    MemberInside(s, j);
    if k < j {
      LaidPair(s, k, j);
    }
    assert k > 0 && (k < |ms| && ms[k].offset <= offset ==> k > j);
    m := MemberAt(s, offset).value;
    assert m > j;
    LaidPair(s, j, m);
  }

  lemma InsideIsMissed(s: Type, j: nat, offset: nat, e: Type)
    requires s.Struct? && WellFormed(s) && Laid(s) && j < |s.members| && Covers(s.members[j], offset)
    requires !Strip(s.members[j].ty).Scalar? && !Finds(s, offset, j)
    requires offset + Size(e) <= s.members[j].offset + Size(s.members[j].ty)
    ensures offset > 0 && !Helper(s, e, offset)
  {
    hide Helper, WellFormed, Laid, MemberAt, Finds;
    var m := HiderIsScalar(s, j, offset);
    if Helper(s, e, offset) {
      NoMatchInside(s, e, offset);
      var n := HelperInMember(s, e, offset);
      ScalarFound(Strip(s.members[m].ty), e, offset - s.members[m].offset);
    }
  }

  /** What is hidden in a tight structure is missed. */
  lemma HiddenIsMissed(s: Type, j: nat, offset: nat) returns (e: Type)
    requires s.Struct? && WellFormed(s) && Laid(s) && Tight(s) && j < |s.members| && Hidden(s, j, offset)
    ensures Missed(s, e, offset) && (offset > 0 || e.Scalar?)
  {
    hide Helper, PathTo, WellFormed, Laid, Tight, Askable, Begins, Finds;
    var t, o := Strip(s.members[j].ty), offset - s.members[j].offset;
    MembersAreWellFormed(s, j);
    MembersAreLaid(s, j);
    TightMember(s, j);
    MemberInside(s, j);
    var path;
    e, path := BeginsInside(t, o);
    PathVia(s, e, offset, j, path);
    if t.Scalar? {
      ScalarIsMissed(s, j);
    } else {
      InsideIsMissed(s, j, offset, e);
    }
  }

  /** Out of an element, out of a member: what is missed inside is missed outside. */
  lemma MissedOutside(t: Type, k: nat, offset: nat, second: Type)
    requires WellFormed(t) && (t.Struct? || t.ArrayOf?) && CanEnter(t, offset, k) && IsSeen(t, offset, k)
    requires WellFormed(Entered(t, offset, k).0) && offset < Size(t) && (offset > 0 || second.Scalar?)
    requires Missed(Entered(t, offset, k).0, second, Entered(t, offset, k).1)
    ensures Missed(t, second, offset)
  {
    hide PathTo, Askable, MemberAt;
    var more :| PathTo(Entered(t, offset, k).0, second, Entered(t, offset, k).1, more);
    PathVia(t, second, offset, k, more);
    if t.ArrayOf? {
      ElementAt(offset, k, Size(t.elem));
    }
  }

  /** In every tight type with something hidden some question is answered "no" although a path leads there. */
  lemma {:induction false} HidingMisses(t: Type) returns (e: Type, offset: nat)
    requires WellFormed(t) && Laid(t) && Tight(t) && !t.Lexical? && Hides(t)
    ensures Missed(t, e, offset) && (offset > 0 || e.Scalar?)
    decreases t
  {
    hide Missed, WellFormed, Laid, Tight;
    match t {
      case ArrayOf(elem, length) =>
        TightElement(t);
        e, offset := HidingMisses(Strip(elem));
        MissedInElement(t, offset, e);
      case Struct(_, ms, _) =>
        if HidesHere(t) {
          var j: nat :| j < |ms| && exists offset: nat :: offset < t.bytes && Hidden(t, j, offset);
          offset :| offset < t.bytes && Hidden(t, j, offset);
          e := HiddenIsMissed(t, j, offset);
        } else {
          var i :| 0 <= i < |ms| && Size(ms[i].ty) > 0 && Hides(ms[i].ty);
          MembersAreWellFormed(t, i);
          MembersAreLaid(t, i);
          TightMember(t, i);
          HidesStrip(ms[i].ty);
          StripWithin(ms[i].ty);
          e, offset := HidingMisses(Strip(ms[i].ty));
          MissedInMember(t, i, offset, e);
          offset := ms[i].offset + offset;
        }
    }
  }

  lemma TightElement(t: Type)
    requires t.ArrayOf? && t.length > 0 && WellFormed(t) && Laid(t) && Tight(t) && Hides(t.elem)
    ensures var inner := Strip(t.elem);
            WellFormed(inner) && Laid(inner) && Tight(inner) && Hides(inner) && inner < t
  {
    WellFormedStrip(t.elem);
    LaidStrip(t.elem);
    TightStrip(t.elem);
    HidesStrip(t.elem);
  }

  lemma MissedInElement(t: Type, offset: nat, e: Type)
    requires t.ArrayOf? && t.length > 0 && WellFormed(t) && WellFormed(Strip(t.elem))
    requires Missed(Strip(t.elem), e, offset) && (offset > 0 || e.Scalar?)
    ensures Missed(t, e, offset)
  {
    hide Helper, HasPath, WellFormed, Askable;
    FirstElement(t, offset);
    MissedOutside(t, 0, offset, e);
  }

  lemma MissedInMember(t: Type, i: nat, o: nat, e: Type)
    requires t.Struct? && i < |t.members| && WellFormed(t) && !HidesHere(t) && WellFormed(Strip(t.members[i].ty))
    requires Missed(Strip(t.members[i].ty), e, o) && (o > 0 || e.Scalar?)
    ensures Missed(t, e, t.members[i].offset + o)
  {
    hide Helper, PathTo, LedTo, WellFormed, Begins, Finds;
    var inner, offset := Strip(t.members[i].ty), t.members[i].offset + o;
    MemberInside(t, i);
    var path :| PathTo(inner, e, o, path);
    PathIsLed(inner, e, o, path);
    LedBegins(inner, e, o, path);
    assert !Hidden(t, i, offset);
    MissedOutside(t, i, offset, e);
  }

  // ---- Both together ----

  /** A type without size is tight and clear, and nothing can be asked about it. */
  lemma EmptyIsTightAndClear(t: Type)
    requires WellFormed(t) && !t.Lexical? && Size(t) == 0
    ensures Tight(t) && Clear(t)
  {
    if t.Struct? {
      forall i: nat | i < |t.members| ensures Size(t.members[i].ty) == 0 && !Padded(t, i) {
        MemberInside(t, i);
        if i + 1 < |t.members| { MemberInside(t, i + 1); }
      }
    } else if t.ArrayOf? && t.length > 0 {
      ProductMonotone(1, t.length, Size(t.elem));
    }
  }

  /**
   * The descent answers every question about a type by the existence of a path exactly if the type is tight
   * and clear. A type with both defects may be answered for exactly by accident, and below a union one
   * member may make up for another.
   */
  lemma ExactIffTightAndClear(first: Type)
    requires WellFormed(first) && Laid(first) && !first.Lexical? && SoundUnions(first)
    requires Tight(first) || Clear(first)
    ensures AnswersExactly(first) <==> Tight(first) && Clear(first)
  {
    hide Helper, HasPath, WellFormed, Laid, Clear, Tight, Misleads, Hides, SoundUnions;
    TightOrMisleads(first);
    ClearOrHides(first);
    if Size(first) == 0 {
      EmptyIsTightAndClear(first);
    } else if Tight(first) && Clear(first) {
      forall second, offset: nat | offset < Size(first) && Askable(second)
        ensures Helper(first, second, offset) <==> HasPath(first, second, offset)
      {
        HelperIsPath(first, second, offset);
      }
    } else if Clear(first) {
      var e, offset := MisleadingFools(first, first);
      assert Fooled(first, Lure(e, first), offset);
    } else {
      var e, offset := HidingMisses(first);
      assert Missed(first, e, offset);
    }
  }

  // ---- Unions that make up for padding ----

  const BYTE := Scalar("char", 1)
  const INT := Scalar("int", 4)
  const SHORT_ARRAY := Struct("", [Member("", 0, ArrayOf(BYTE, 1), -1)], 8)
  const MASKED := Union("", [Member("", 0, SHORT_ARRAY, -1), Member("", 0, ArrayOf(BYTE, 8), -1)], 8)

  lemma ByteLeads(second: Type, offset: nat, path: seq<nat>)
    requires LedTo(BYTE, second, offset, path)
    ensures second == BYTE
  {
  }

  lemma ByteArrayLeads(length: nat, second: Type, offset: nat, path: seq<nat>)
    requires path != [] && LedTo(ArrayOf(BYTE, length), second, offset, path)
    ensures second == BYTE
  {
    ByteLeads(second, offset - path[0] * 1, path[1..]);
  }

  lemma NoneAstrayInside(length: nat, second: Type, offset: nat, path: seq<nat>)
    requires offset < length
    ensures !Astray(ArrayOf(BYTE, length), second, offset, path)
  {
    if path != [] && CanStep(ArrayOf(BYTE, length), offset, path[0]) {
      NoneAstrayInByte(second, offset - path[0] * 1, path[1..]);
    }
  }

  lemma NoneAstrayInByte(second: Type, offset: nat, path: seq<nat>)
    ensures !Astray(BYTE, second, offset, path)
  {
  }

  lemma ShortArrayAstray(second: Type, offset: nat, path: seq<nat>)
    requires Astray(SHORT_ARRAY, second, offset, path)
    ensures second == BYTE
  {
    hide LedTo;
    assert path[0] == 0 && Entered(SHORT_ARRAY, offset, 0) == (ArrayOf(BYTE, 1), offset);
    if CanStray(SHORT_ARRAY, offset, 0) {
      NoMatchBeyond(second, offset, path[1..]);
      ByteArrayLeads(1, second, offset, path[1..]);
    } else {
      NoneAstrayInside(1, second, offset, path[1..]);
    }
  }

  lemma NoMatchBeyond(second: Type, offset: nat, path: seq<nat>)
    requires offset > 0 && LedTo(ArrayOf(BYTE, 1), second, offset, path)
    ensures path != []
  {
  }

  lemma MaskedAstray(second: Type, offset: nat, path: seq<nat>)
    requires offset < 8 && Astray(MASKED, second, offset, path)
    ensures second == BYTE
  {
    hide LedTo;
    if path[0] == 0 {
      assert Entered(MASKED, offset, 0) == (Strip(SHORT_ARRAY), offset);
      ShortArrayAstray(second, offset, path[1..]);
    } else {
      assert Entered(MASKED, offset, 1) == (ArrayOf(BYTE, 8), offset);
      NoneAstrayInside(8, second, offset, path[1..]);
    }
  }

  lemma ByteThere(offset: nat)
    requires offset < 8
    ensures HasPath(MASKED, BYTE, offset)
  {
    assert CanEnter(ArrayOf(BYTE, 8), offset, offset) && Entered(ArrayOf(BYTE, 8), offset, offset) == (BYTE, 0);
    assert PathTo(BYTE, BYTE, 0, []);
    PathVia(ArrayOf(BYTE, 8), BYTE, offset, offset, []);
    PathVia(MASKED, BYTE, offset, 1, [offset] + []);
  }

  /** A union that is not tight may still be answered for exactly: here its second member covers up. */
  lemma UnionsMayMask()
    ensures Askable(MASKED) && Clear(MASKED) && !Tight(MASKED) && AnswersExactly(MASKED)
  {
    MaskedIsPadded();
    hide Helper, HasPath, HasPathInView, WellFormed, Clear, Tight, Astray, Askable, InView, PathTo;
    forall second, offset: nat | offset < 8 && Askable(second)
      ensures Helper(MASKED, second, offset) <==> HasPath(MASKED, second, offset)
    {
      HelperIsPathOrAstray(MASKED, second, offset);
      if GoesAstray(MASKED, second, offset) {
        var path :| Astray(MASKED, second, offset, path) && InView(MASKED, offset, path);
        MaskedAstray(second, offset, path);
        ByteThere(offset);
      }
      if HasPath(MASKED, second, offset) {
        PathOfClear(MASKED, second, offset);
      } else {
        PathInViewIsPath(MASKED, second, offset);
      }
    }
  }

  const MIXED := Struct("", [Member("", 0, BYTE, 3), Member("", 0, INT, 5)], 4)
  const MADE_UP := Union("", [Member("", 0, MIXED, -1), Member("", 0, INT, -1)], 4)

  lemma MadeUpIsLaid()
    ensures Askable(MADE_UP) && Tight(MADE_UP) && !Clear(MADE_UP)
    ensures WellFormed(MIXED) && MemberAt(MIXED, 0) == Some(0)
  {
    MixedIsLaid();
    assert MADE_UP.members[0].ty == MIXED;
    assert Laid(INT) && WellFormed(INT);
    hide Hidden;
  }

  lemma MixedIsLaid()
    ensures WellFormed(MIXED) && Laid(MIXED) && Tight(MIXED) && !Clear(MIXED) && MemberAt(MIXED, 0) == Some(0)
  {
    assert forall i :: 0 <= i < |MIXED.members| ==> !Padded(MIXED, i);
    assert LaidAfter(MIXED.members[0], MIXED.members[1]);
    StopIs(MIXED.members, 0, 0, 0);
    assert Hidden(MIXED, 1, 0);
  }

  lemma MixedPath(second: Type, offset: nat, path: seq<nat>)
    requires WellFormed(MIXED) && MemberAt(MIXED, 0) == Some(0) && PathTo(MIXED, second, offset, path)
    ensures Helper(MIXED, second, offset) || (second == INT && offset == 0)
  {
    if path != [] {
      var (t, o) := Entered(MIXED, offset, path[0]);
      assert t.Scalar?;
      assert path[1..] == [];
    }
  }

  /** Nor need such a union be clear: the bit-field that is hidden in one member is found as the other. */
  lemma UnionsMayShow()
    ensures Askable(MADE_UP) && Tight(MADE_UP) && !Clear(MADE_UP) && AnswersExactly(MADE_UP)
  {
    MadeUpIsLaid();
    forall second, offset: nat | offset < 4 && Askable(second)
      ensures Helper(MADE_UP, second, offset) <==> HasPath(MADE_UP, second, offset)
    {
      hide Helper, Askable, PathTo, MemberAt, Tight, Clear, WellFormed;
      if Helper(MADE_UP, second, offset) {
        var path := FoundIsPath(MADE_UP, second, offset);
      }
      if HasPath(MADE_UP, second, offset) {
        var path :| PathTo(MADE_UP, second, offset, path);
        MadeUpFinds(second, offset, path);
      }
    }
  }

  lemma MadeUpFinds(second: Type, offset: nat, path: seq<nat>)
    requires WellFormed(MADE_UP) && WellFormed(MIXED) && MemberAt(MIXED, 0) == Some(0) && offset < 4
    requires PathTo(MADE_UP, second, offset, path)
    ensures Helper(MADE_UP, second, offset)
  {
    hide MemberAt;
    if path != [] {
      var (t, o) := Entered(MADE_UP, offset, path[0]);
      if path[0] == 0 { MixedPath(second, offset, path[1..]); } else { IntPath(second, offset, path[1..]); }
      hide Helper;
      if Helper(MIXED, second, offset) {
        StepIsTaken(MADE_UP, second, offset, 0);
      } else {
        IntIsFound();
        StepIsTaken(MADE_UP, INT, 0, 1);
      }
    }
  }

  lemma IntIsFound()
    ensures WellFormed(INT) && Helper(INT, INT, 0)
  {
  }

  lemma PathOfClear(first: Type, second: Type, offset: nat)
    requires WellFormed(first) && Clear(first) && HasPath(first, second, offset)
    ensures Helper(first, second, offset)
  {
    var path :| PathTo(first, second, offset, path);
    PathIsFound(first, second, offset, path);
  }

  lemma PathInViewIsPath(first: Type, second: Type, offset: nat)
    ensures HasPathInView(first, second, offset) ==> HasPath(first, second, offset)
  {
  }

  lemma MaskedIsPadded()
    ensures Askable(MASKED) && Clear(MASKED) && !Tight(MASKED)
  {
    assert Padded(SHORT_ARRAY, 0);
    assert !Tight(SHORT_ARRAY);
    assert MASKED.members[0].ty == SHORT_ARRAY;
    assert Laid(SHORT_ARRAY);
    assert WellFormed(SHORT_ARRAY) && InOrder(SHORT_ARRAY) && Apart(SHORT_ARRAY);
    assert InOrder(ArrayOf(BYTE, 8)) && Apart(ArrayOf(BYTE, 8)) && WellFormed(ArrayOf(BYTE, 8));
    ClearIffApart(MASKED);
  }

  // ---- Bit-fields and their neighbours ----

  const SHORT := Scalar("short", 2)

  /** A descriptor of the kernel: the storage of the five bit-fields at 4 reaches over the short at 6. */
  const GATE := Struct("gate_struct64",
    [Member("offset_low", 0, SHORT, -1), Member("segment", 2, SHORT, -1),
     Member("ist", 4, INT, 3), Member("zero0", 4, INT, 5), Member("type", 4, INT, 5),
     Member("dpl", 4, INT, 2), Member("p", 4, INT, 1),
     Member("offset_middle", 6, SHORT, -1), Member("offset_high", 8, INT, -1), Member("zero1", 12, INT, -1)],
    16)

  lemma StorageMayOverlap()
    ensures Askable(GATE) && Clear(GATE) && Tight(GATE) && AnswersExactly(GATE)
  {
    GateIsLaid();
    hide Clear, Tight, WellFormed, Laid, AnswersExactly, SoundUnions;
    ExactIffTightAndClear(GATE);
  }

  lemma GateIsLaid()
    ensures Askable(GATE) && Clear(GATE) && Tight(GATE) && SoundUnions(GATE)
  {
    assert forall i :: 0 <= i < |GATE.members| - 1 ==> Ascends(GATE.members[i], GATE.members[i + 1]);
    AscendingMembers(GATE.members);
    assert forall i :: 0 <= i < |GATE.members| ==> IsScalarWithin(GATE.members[i], 16);
    ScalarsInOrder(GATE);
  }

  predicate Ascends(a: Member, b: Member) { a.offset < b.offset || (a.offset == b.offset && a.ty == b.ty) }

  lemma {:induction false} AscendingFrom(ms: seq<Member>, i: nat, j: nat)
    requires forall k :: 0 <= k < |ms| - 1 ==> Ascends(ms[k], ms[k + 1])
    requires i < j < |ms|
    ensures Ascends(ms[i], ms[j])
    decreases j - i
  {
    if i + 1 < j {
      AscendingFrom(ms, i, j - 1);
      assert Ascends(ms[j - 1], ms[j - 1 + 1]);
    }
  }

  lemma AscendingMembers(ms: seq<Member>)
    requires forall k :: 0 <= k < |ms| - 1 ==> Ascends(ms[k], ms[k + 1])
    ensures forall i, j :: 0 <= i < j < |ms| ==> Ascends(ms[i], ms[j])
  {
    forall i, j | 0 <= i < j < |ms| ensures Ascends(ms[i], ms[j]) { AscendingFrom(ms, i, j); }
  }

  predicate IsScalarWithin(m: Member, bytes: nat) { m.ty.Scalar? && m.offset + m.ty.bytes <= bytes }

  /** Structures of scalars, bit-fields or not, are fine if those that share an offset share their type. */
  lemma ScalarsInOrder(s: Type)
    requires s.Struct? && s.bytes > 0 && (s.members != [] ==> s.members[0].offset == 0)
    requires forall i :: 0 <= i < |s.members| ==> IsScalarWithin(s.members[i], s.bytes)
    requires forall i, j :: 0 <= i < j < |s.members| ==> Ascends(s.members[i], s.members[j])
    ensures Askable(s) && Clear(s) && Tight(s) && SoundUnions(s)
  {
    forall i, j | 0 <= i < j < |s.members| ensures Follows(s.members[i], s.members[j]) {
      assert Ascends(s.members[i], s.members[j]);
    }
    assert NoneClash(s.members);
    assert WellFormed(s) && InOrder(s) && Apart(s);
    ClearIffApart(s);
    forall i: nat | i < |s.members| ensures !Padded(s, i) {
      assert IsScalarWithin(s.members[i], s.bytes);
    }
  }

  const PAIR := Struct("", [Member("x", 0, BYTE, -1), Member("y", 1, BYTE, -1)], 2)

  /** The storage of the bit-field in byte 7 begins at 4, before the pair in bytes 5 and 6. */
  const BACKWARD := Struct("",
    [Member("name", 0, ArrayOf(BYTE, 5), -1), Member("pair", 5, PAIR, -1), Member("flag", 4, INT, 8)], 8)

  lemma BackwardIsLaid()
    ensures Askable(PAIR) && Askable(BACKWARD)
  {
  }

  /** So the pair is hidden there: its second member is not found. */
  lemma BitFieldHidesBefore()
    ensures Askable(BACKWARD) && !Clear(BACKWARD) && Missed(BACKWARD, BYTE, 6)
  {
    BackwardIsLaid();
    assert PathTo(BYTE, BYTE, 0, []);
    PathVia(PAIR, BYTE, 1, 1, []);
    PathVia(BACKWARD, BYTE, 6, 1, [1] + []);
    StopIs(BACKWARD.members, 6, 0, 3);
    assert MemberAt(BACKWARD, 6) == Some(2);
    if Clear(BACKWARD) {
      PathIsFound(BACKWARD, BYTE, 6, [1] + ([1] + []));
    }
  }

  /** The padding after the array would be entered, and the bit-field there is hidden. */
  const CANCELLED := Struct("",
    [Member("", 0, ArrayOf(INT, 1), -1), Member("", 6, BYTE, -1), Member("", 4, INT, 8)], 8)

  lemma ScansOfCancelled(offset: nat)
    requires offset < 8
    ensures MemberAt(CANCELLED, offset) == Some(if offset < 6 then 0 else if offset == 6 then 1 else 2)
  {
    StopIs(CANCELLED.members, offset, 0, if offset == 0 then 0 else if offset <= 6 then 1 else 3);
  }

  lemma CancelledIsLaid()
    ensures Askable(CANCELLED) && !Tight(CANCELLED) && !Clear(CANCELLED)
  {
    assert Padded(CANCELLED, 0);
    ScansOfCancelled(4);
    assert Hidden(CANCELLED, 2, 4);
  }

  lemma IntArrayIsSound()
    ensures WellFormed(ArrayOf(INT, 1)) && Clear(ArrayOf(INT, 1)) && Tight(ArrayOf(INT, 1))
  {
  }

  lemma IntArrayBeyond(second: Type, offset: nat)
    requires 4 <= offset < 6
    ensures Helper(ArrayOf(INT, 1), second, offset) <==> offset == 4 && second == INT
  {
  }

  lemma IntPath(second: Type, offset: nat, path: seq<nat>)
    requires PathTo(INT, second, offset, path)
    ensures offset == 0 && second == INT
  {
  }

  lemma CancelledFinds(second: Type, offset: nat)
    requires offset < 8 && Size(second) > 0 && WellFormed(CANCELLED) && Helper(CANCELLED, second, offset)
    ensures HasPath(CANCELLED, second, offset)
  {
    hide Helper, WellFormed, HasPath, MemberAt, Matches, Size, Strip;
    if Matches(CANCELLED, second, offset) {
      PathStops(CANCELLED, second, offset);
    } else {
      var m := HelperInMember(CANCELLED, second, offset);
      ScansOfCancelled(offset);
      CancelledInMember(second, offset, m);
    }
  }

  lemma CancelledInMember(second: Type, offset: nat, m: nat)
    requires offset < 8 && Size(second) > 0 && m == if offset < 6 then 0 else if offset == 6 then 1 else 2
    requires WellFormed(Strip(CANCELLED.members[m].ty))
    requires Helper(Strip(CANCELLED.members[m].ty), second, offset - CANCELLED.members[m].offset)
    ensures HasPath(CANCELLED, second, offset)
  {
    hide Helper, WellFormed, HasPath;
    if m == 0 {
      CancelledArray(second, offset);
    } else {
      CancelledByte(second, offset, m);
    }
  }

  lemma CancelledByte(second: Type, offset: nat, m: nat)
    requires 6 <= offset < 8 && m == if offset == 6 then 1 else 2
    requires WellFormed(Strip(CANCELLED.members[m].ty))
    requires Helper(Strip(CANCELLED.members[m].ty), second, offset - CANCELLED.members[m].offset)
    ensures HasPath(CANCELLED, second, offset)
  {
    hide Helper, WellFormed, HasPath;
    ScalarFound(Strip(CANCELLED.members[m].ty), second, offset - CANCELLED.members[m].offset);
    CancelledScalars();
  }

  lemma CancelledScalars()
    ensures HasPath(CANCELLED, INT, 4) && HasPath(CANCELLED, BYTE, 6)
  {
    PathStops(INT, INT, 0);
    PathVia(CANCELLED, INT, 4, 2, []);
    PathStops(BYTE, BYTE, 0);
    PathVia(CANCELLED, BYTE, 6, 1, []);
  }

  lemma CancelledArray(second: Type, offset: nat)
    requires offset < 6 && Size(second) > 0 && WellFormed(ArrayOf(INT, 1)) && Helper(ArrayOf(INT, 1), second, offset)
    ensures HasPath(CANCELLED, second, offset)
  {
    IntArrayIsSound();
    hide Helper, WellFormed, Tight, PathTo;
    if offset < 4 {
      var path := FoundIsPath(ArrayOf(INT, 1), second, offset);
      PathVia(CANCELLED, second, offset, 0, path);
    } else {
      IntArrayBeyond(second, offset);
      CancelledScalars();
    }
  }

  lemma PathStops(first: Type, second: Type, offset: nat)
    requires Matches(first, second, offset)
    ensures PathTo(first, second, offset, []) && HasPath(first, second, offset)
  {
    assert PathTo(first, second, offset, []);
  }

  lemma AskableHasSize(t: Type)
    requires Askable(t)
    ensures Size(t) > 0
  {
  }

  lemma CancelledEntries(offset: nat, k: nat)
    requires offset < 8 && CanEnter(CANCELLED, offset, k)
    ensures Entered(CANCELLED, offset, k) ==
            if k == 0 then (ArrayOf(INT, 1), offset) else if k == 1 then (BYTE, 0) else (INT, offset - 4)
    ensures k <= 2 && (k < 2 ==> IsSeen(CANCELLED, offset, k))
  {
    ScansOfCancelled(offset);
    hide MemberAt;
  }

  lemma IntInPadding()
    ensures WellFormed(CANCELLED) ==> Helper(CANCELLED, INT, 4)
  {
    ScansOfCancelled(4);
    IntArrayBeyond(INT, 4);
    hide MemberAt;
  }

  lemma CancelledMissesNothing(second: Type, offset: nat, path: seq<nat>)
    requires offset < 8 && WellFormed(CANCELLED) && PathTo(CANCELLED, second, offset, path)
    ensures Helper(CANCELLED, second, offset)
  {
    if path == [] {
      return;
    }
    hide Helper, MemberAt, WellFormed, CanEnter, Entered, IsSeen, Clear;
    var (t, o) := Entered(CANCELLED, offset, path[0]);
    CancelledEntries(offset, path[0]);
    if path[0] == 2 {
      IntPath(second, o, path[1..]);
      IntInPadding();
    } else {
      EnteredIsWellFormed(CANCELLED, offset, path[0]);
      EntriesAreClear();
      PathIsFound(t, second, o, path[1..]);
      StepIsTaken(CANCELLED, second, offset, path[0]);
    }
  }

  lemma EntriesAreClear()
    ensures Clear(ArrayOf(INT, 1)) && Clear(BYTE)
  {
  }

  /** Two defects may make up for each other: what the bit-field hides is found in the padding instead. */
  lemma DefectsMayCancel()
    ensures Askable(CANCELLED) && !Tight(CANCELLED) && !Clear(CANCELLED) && AnswersExactly(CANCELLED)
  {
    CancelledIsLaid();
    hide Helper, PathTo, WellFormed, Clear, Tight, Askable;
    forall second, offset: nat | offset < 8 && Askable(second)
      ensures Helper(CANCELLED, second, offset) <==> HasPath(CANCELLED, second, offset)
    {
      if Helper(CANCELLED, second, offset) {
        assert Size(second) > 0 by { AskableHasSize(second); }
        CancelledFinds(second, offset);
      }
      if HasPath(CANCELLED, second, offset) {
        var path :| PathTo(CANCELLED, second, offset, path);
        CancelledMissesNothing(second, offset, path);
      }
    }
  }

  /** Of bit-fields of different scalar types that share an offset only the first is found. */
  lemma OnlyFirstBitFieldFound(s: Type, i: nat, j: nat)
    requires s.Struct? && WellFormed(s) && i < j < |s.members| && s.members[i].offset == s.members[j].offset
    requires Strip(s.members[i].ty).Scalar? && Strip(s.members[j].ty).Scalar?
    requires Size(s.members[i].ty) > 0 && Size(s.members[j].ty) > 0
    requires forall k :: 0 <= k < i ==> s.members[k].offset < s.members[i].offset
    ensures HasPath(s, Strip(s.members[j].ty), s.members[j].offset)
    ensures Helper(s, Strip(s.members[j].ty), s.members[j].offset) <==> Strip(s.members[i].ty) == Strip(s.members[j].ty)
  {
    var offset, second := s.members[j].offset, Strip(s.members[j].ty);
    assert PathTo(second, second, 0, []);
    PathVia(s, second, offset, j, []);
    MemberInside(s, i);
    StopIs(s.members, offset, 0, i);
    assert MemberAt(s, offset) == Some(i);
    MembersAreWellFormed(s, i);
    hide WellFormed;
  }
}
