/** The fixed set of table locations, in its two spellings: the stored,
    capitalised form (`LocationChoices`) and the lower-case form accepted in
    the query string (`LocationURLChoices`). */
module Choices {
  import opened Wrappers
  import opened Text

  datatype Location = Terrasa | Podval | ZalUStola | Krysha

  /** The value stored with a table and returned in responses: a capital
      Cyrillic letter followed by characters that lower-casing leaves alone. */
  function Display(l: Location): (s: string)
    ensures |s| > 0 && 'А' <= s[0] <= 'Я'
    ensures forall i :: 1 <= i < |s| ==> LowerChar(s[i]) == s[i]
  {
    match l
    case Terrasa => "Терраса"
    case Podval => "Подвал"
    case ZalUStola => "Зал у окна"
    case Krysha => "Крыша"
  }

  /** The value a client writes in `?location=`, already in lower case. */
  function UrlValue(l: Location): (s: string)
    ensures |s| > 0
    ensures forall i :: 0 <= i < |s| ==> LowerChar(s[i]) == s[i]
  {
    match l
    case Terrasa => "терраса"
    case Podval => "подвал"
    case ZalUStola => "зал у окна"
    case Krysha => "крыша"
  }

  /** The enum conversion of the `location` query parameter: the member
      whose value is `s`, or none, which ends the request with 422. */
  function FromUrlValue(s: string): (r: Option<Location>)
    ensures r.Some? ==> UrlValue(r.value) == s
    ensures r.None? <==> forall l :: UrlValue(l) != s
  {
    if s == "терраса" then Some(Terrasa)
    else if s == "подвал" then Some(Podval)
    else if s == "зал у окна" then Some(ZalUStola)
    else if s == "крыша" then Some(Krysha)
    else None
  }

  /** Distinct members have distinct query-string values. */
  lemma UrlValueInjective(a: Location, b: Location)
    ensures UrlValue(a) == UrlValue(b) <==> a == b
  {
    assert |UrlValue(Terrasa)| == 7 && |UrlValue(Podval)| == 6;
    assert |UrlValue(ZalUStola)| == 10 && |UrlValue(Krysha)| == 5;
  }

  /** Every query-string value converts back to its own member. */
  lemma FromUrlValueRoundTrip(l: Location)
    ensures FromUrlValue(UrlValue(l)) == Some(l)
  {
    UrlValueInjective(FromUrlValue(UrlValue(l)).value, l);
  }

  /** Lower-casing the stored value gives the query-string value. */
  lemma LowerDisplay(l: Location)
    ensures Lower(Display(l)) == UrlValue(l)
  {
    var d, u := Display(l), UrlValue(l);
    match l {
      case Terrasa => assert d[1..] == u[1..];
      case Podval => assert d[1..] == u[1..];
      case ZalUStola => assert d[1..] == u[1..];
      case Krysha => assert d[1..] == u[1..];
    }
    assert LowerChar(d[0]) == u[0];
    assert forall i :: 0 <= i < |d| ==> Lower(d)[i] == u[i];
  }

  /** The location filter `t.location.value.lower() == location.value` holds
      exactly when the table's location is the chosen member. */
  lemma LocationFilterIsMemberEquality(stored: Location, chosen: Location)
    ensures Lower(Display(stored)) == UrlValue(chosen) <==> stored == chosen
  {
    LowerDisplay(stored);
    UrlValueInjective(stored, chosen);
  }

  /** Values outside the four, such as "гардероб" or "крышка", are refused. */
  lemma UnknownLocationsRefused()
    ensures FromUrlValue("гардероб") == None && FromUrlValue("крышка") == None
  {
  }
}
