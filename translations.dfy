/**
  * The two per-language texts of constants.tsx (`TRANSLATIONS`) that the modelled code
  * puts into messages: the legacy welcome greeting and the privacy notice.
  */
module Translations {
  import opened Types

  /** The greeting of the legacy shell, each written in two halves that read as in the
      source when joined. */
  function Welcome(l: Language): string {
    match l
    case En => ("Hello. How body? I dey here for you. "
      + "Anything weighing you down today?")
    case Yo => ("Bawo. Ara nko? Mo wa nibi fun e. "
      + "Se nkankan n da e lamu loni?")
    case Ha => ("Sannu. Yaya jiki? Ina nan domin ku. "
      + "Ko akwai abin da ke damun ku?")
    case Ig => ("Kedu. Kedu ka ị mere? Anọ m ebe a maka gị. "
      + "Enwere ihe na-enye gị nsogbu taa?")
  }

  function PrivacyNotice(l: Language): string {
    match l
    case En => "Your privacy comes first. Chats are not saved unless you toggle 'History On'. All data stays locally on your device."
    case Yo => "Aṣiri rẹ ṣe pataki. A ko fi ọrọ pamọ ayafi ti o ba tan 'Itan'. Awọn data wa lori ẹrọ rẹ."
    case Ha => "Sirrinka yana da mahimmanci. Ba a adana hira sai ka kunna 'Tarihi'. Bayanai suna kan na'urarka."
    case Ig => "Nzuzo gị dị mkpa. A naghị echekwa nkata ọ gwụla ma ị gbanyere 'Akụkọ'. Data niile na-anọ na ngwaọrụ gị."
  }

  /** No greeting contains a dollar sign. */
  lemma WelcomeHasNoDollar(l: Language)
    ensures '$' !in Welcome(l)
  {
    match l
    case En => WelcomeHasNoDollarEn();
    case Yo => WelcomeHasNoDollarYo();
    case Ha => WelcomeHasNoDollarHa();
    case Ig => WelcomeHasNoDollarIg();
  }

  lemma WelcomeHasNoDollarEn()
    ensures '$' !in Welcome(En)
  {
    assert |"Hello. How body? I dey here for you. "| == 37;
    assert forall i :: 0 <= i < 37 ==> "Hello. How body? I dey here for you. "[i] != '$';
    assert |"Anything weighing you down today?"| == 33;
    assert forall i :: 0 <= i < 33 ==> "Anything weighing you down today?"[i] != '$';
  }

  lemma WelcomeHasNoDollarYo()
    ensures '$' !in Welcome(Yo)
  {
    assert |"Bawo. Ara nko? Mo wa nibi fun e. "| == 33;
    assert forall i :: 0 <= i < 33 ==> "Bawo. Ara nko? Mo wa nibi fun e. "[i] != '$';
    assert |"Se nkankan n da e lamu loni?"| == 28;
    assert forall i :: 0 <= i < 28 ==> "Se nkankan n da e lamu loni?"[i] != '$';
  }

  lemma WelcomeHasNoDollarHa()
    ensures '$' !in Welcome(Ha)
  {
    assert |"Sannu. Yaya jiki? Ina nan domin ku. "| == 36;
    assert forall i :: 0 <= i < 36 ==> "Sannu. Yaya jiki? Ina nan domin ku. "[i] != '$';
    assert |"Ko akwai abin da ke damun ku?"| == 29;
    assert forall i :: 0 <= i < 29 ==> "Ko akwai abin da ke damun ku?"[i] != '$';
  }

  lemma WelcomeHasNoDollarIg()
    ensures '$' !in Welcome(Ig)
  {
    assert |"Kedu. Kedu ka ị mere? Anọ m ebe a maka gị. "| == 43;
    assert forall i :: 0 <= i < 43 ==> "Kedu. Kedu ka ị mere? Anọ m ebe a maka gị. "[i] != '$';
    assert |"Enwere ihe na-enye gị nsogbu taa?"| == 33;
    assert forall i :: 0 <= i < 33 ==> "Enwere ihe na-enye gị nsogbu taa?"[i] != '$';
  }
}
