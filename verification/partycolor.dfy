/**
 `get_color_for_party`: the fixed, ordered table of party-name fragments
 that give a winner's district its colour on the map.
 */
module PartyColor {
  import opened Wrappers
  import opened Text

  const PisMarker: string := "PRAWO I SPRAWIEDLIWOŚĆ"
  const KoMarker: string := "KOALICJA OBYWATELSKA"
  const PoMarker: string := "PLATFORMA OBYWATELSKA"

  const PisColor: string := "#1248D4"
  const CivicColor: string := "#D41248"

  /**
   Case-insensitive substring tests in a fixed order; a name matching no
   fragment has no colour (`get_color_for_party` falls off its end and returns `None`).
   */
  function ColorForParty(name: string): (r: Option<string>)
    ensures r == Some(PisColor) <==> Contains(Upper(name), PisMarker)
    ensures r == Some(CivicColor) <==>
      !Contains(Upper(name), PisMarker)
      && (Contains(Upper(name), KoMarker) || Contains(Upper(name), PoMarker))
    ensures r.None? <==>
      !Contains(Upper(name), PisMarker)
      && !Contains(Upper(name), KoMarker)
      && !Contains(Upper(name), PoMarker)
  {
    var u := Upper(name);
    if Contains(u, PisMarker) then Some(PisColor)
    else if Contains(u, KoMarker) then Some(CivicColor)
    else if Contains(u, PoMarker) then Some(CivicColor)
    else None
  }

  /** The lookup ignores case: an upper-cased name gets the same colour. */
  lemma ColorForPartyIgnoresCase(name: string)
    ensures ColorForParty(Upper(name)) == ColorForParty(name)
  {
    UpperIdempotent(name);
  }

  /** The full committee name of Law and Justice, in mixed case, gets its colour. */
  lemma ColorForPartyLawAndJustice(name: string)
    requires name == "Komitet Wyborczy Prawo i Sprawiedliwość"
    ensures ColorForParty(name) == Some(PisColor)
  {
    assert OccursAt(Upper(name), PisMarker, 17) by {
      assert Upper(name)[17..] == PisMarker;
    }
  }

  lemma CivicNameUpper(name: string)
    requires name == "Komitet Wyborczy Koalicja Obywatelska"
    ensures OccursAt(Upper(name), KoMarker, 17)
  {
    assert Upper(name)[17..] == KoMarker;
  }

  /** The Civic Coalition's committee name gets the civic colour, not the first entry's. */
  lemma ColorForPartyCivicCoalition(name: string)
    requires name == "Komitet Wyborczy Koalicja Obywatelska"
    ensures ColorForParty(name) == Some(CivicColor)
  {
    CivicNameUpper(name);
    var u := Upper(name);
    assert forall i :: 0 <= i < |u| ==> u[i] != PisMarker[20];
    NotContainsByChar(u, PisMarker, 20);
  }

  /** A name matching none of the fragments has no colour. */
  lemma ColorForPartyUnknown(name: string)
    requires name == "Konfederacja"
    ensures ColorForParty(name) == None
  {
    var u := Upper(name);
    assert forall i :: 0 <= i < |u| ==> u[i] != ' ';
    NotContainsByChar(u, PisMarker, 5);
    NotContainsByChar(u, KoMarker, 8);
    NotContainsByChar(u, PoMarker, 9);
  }
}
