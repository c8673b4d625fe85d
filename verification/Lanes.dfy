/** The bifurcation of a PCIe slot: a list of numbers in a JSON file, made into octets. */
module Lanes {
  import opened Bytes
  import opened Ipmi
  import opened Narrowing

  /** What the file says of a slot: nothing that is a list, or a list with numbers and perhaps other things in it. */
  datatype Listing = Unusable | Listed(elements: seq<Option<Number>>)

  /** An element read as a uint8_t: an integer wraps, a number with a fraction must fit. */
  function OctetOf(e: Option<Number>): (r: Execution<byte>)
    ensures e.None? ==> r == Ends(Foreign)
    ensures e.Some? && e.value.Integer? ==> HasOctet(r, e.value.i)
    ensures e.Some? && e.value.Float? ==>
              if -1.0 < e.value.x < 256.0 then r == Ends(Value(Truncated(e.value.x))) else r == Meaningless
  {
    match e
    case None => Ends(Foreign)
    case Some(Integer(i)) => Ends(Value(i % 256))
    case Some(Float(x)) =>
      match Converted(Finite(x), 0, 255)
      case Some(i) => Ends(Value(i))
      case None => Meaningless
  }

  /** The elements are converted in turn. */
  function Octets(elements: seq<Option<Number>>): Execution<seq<byte>> {
    if elements == [] then Ends(Value([]))
    else match OctetOf(elements[0])
      case Meaningless => Meaningless
      case Ends(Value(b)) =>
        (match Octets(elements[1..])
         case Ends(Value(bs)) => Ends(Value([b] + bs))
         case other => other)
      case Ends(_) => Ends(Foreign)
  }

  /** BifurcationStatic::getBifurcation: an empty list for what it cannot make out; None if it has no meaning. */
  function GetBifurcation(listing: Listing): Option<seq<byte>> {
    match listing
    case Unusable => Some([])
    case Listed(elements) =>
      match Octets(elements)
      case Meaningless => None
      case Ends(answer) => Some(if answer.Value? then answer.value else [])
  }

  predicate IsOctet(e: Option<Number>) { OctetOf(e).Ends? && OctetOf(e).answer.Value? }

  /** A number with a fraction that lies outside the range of a uint8_t. */
  predicate Oversized(e: Option<Number>) { e.Some? && e.value.Float? && !(-1.0 < e.value.x < 256.0) }

  /** The conversion gets to an oversized number: nothing before it stops it. */
  predicate MeetsOversized(elements: seq<Option<Number>>) {
    exists i :: 0 <= i < |elements| && Oversized(elements[i]) && forall j :: 0 <= j < i ==> IsOctet(elements[j])
  }

  /** When a list has no meaning, when it is made out whole, and what it then comes to. */
  lemma {:induction false} OctetsExactly(elements: seq<Option<Number>>)
    ensures Octets(elements).Meaningless? <==> MeetsOversized(elements)
    ensures var r := Octets(elements);
            (r.Ends? && r.answer.Value?) <==> forall i :: 0 <= i < |elements| ==> IsOctet(elements[i])
    ensures var r := Octets(elements);
            r.Ends? && r.answer.Value? ==>
              && |r.answer.value| == |elements|
              && forall i :: 0 <= i < |elements| ==> OctetOf(elements[i]) == Ends(Value(r.answer.value[i]))
  {
    if elements != [] {
      var e, rest := elements[0], elements[1..];
      assert forall i :: 0 < i < |elements| ==> elements[i] == rest[i - 1];
      OctetsExactly(rest);
      MeetsOversizedLater(elements);
    }
  }

  /** What a slot's entry comes to: its octets if every element is one, nothing if not, unless it has no meaning. */
  lemma BifurcationExactly(listing: Listing)
    ensures GetBifurcation(listing).None? <==> listing.Listed? && MeetsOversized(listing.elements)
    ensures GetBifurcation(listing) == Some([]) <==>
            || listing.Unusable? || listing.elements == []
            || (!MeetsOversized(listing.elements)
                && exists i :: 0 <= i < |listing.elements| && !IsOctet(listing.elements[i]))
    ensures listing.Listed? && (forall i :: 0 <= i < |listing.elements| ==> IsOctet(listing.elements[i])) ==>
              && GetBifurcation(listing).Some? && |GetBifurcation(listing).value| == |listing.elements|
              && forall i :: 0 <= i < |listing.elements| ==>
                   OctetOf(listing.elements[i]) == Ends(Value(GetBifurcation(listing).value[i]))
  {
    if listing.Listed? {
      OctetsExactly(listing.elements);
    }
  }

  lemma MeetsOversizedLater(elements: seq<Option<Number>>)
    requires elements != []
    ensures MeetsOversized(elements) <==>
            Oversized(elements[0]) || (IsOctet(elements[0]) && MeetsOversized(elements[1..]))
  {
    var rest := elements[1..];
    if MeetsOversized(elements) {
      var i :| 0 <= i < |elements| && Oversized(elements[i]) && forall j :: 0 <= j < i ==> IsOctet(elements[j]);
      if i > 0 {
        assert forall j :: 0 <= j < i - 1 ==> rest[j] == elements[j + 1];
        assert Oversized(rest[i - 1]);
      }
    }
    if IsOctet(elements[0]) && MeetsOversized(rest) {
      var i :| 0 <= i < |rest| && Oversized(rest[i]) && forall j :: 0 <= j < i ==> IsOctet(rest[j]);
      assert forall j :: 0 < j < i + 1 ==> elements[j] == rest[j - 1];
      assert Oversized(elements[i + 1]);
    }
  }
}
