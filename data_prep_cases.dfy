/** Worked cases of the data-preparation rules, on concrete names and credential lines. */
module DataPrepCases {
  import opened Wrappers
  import opened PyStr
  import opened DataPrep

  /** "Seattle/Tacoma, WA" becomes "Seattle, WA": the alternate name is dropped. */
  lemma CleanCitySeattleTacoma(s: string)
    requires s == "Seattle/Tacoma, WA"
    ensures CleanCity(s) == "Seattle, WA"
  {
    SeattleTacomaParts(s);
    CleanCitySlash(s, 7, 14);
  }

  /** Where the slash and the comma of "Seattle/Tacoma, WA" are, and what the slash rule keeps. */
  lemma SeattleTacomaParts(s: string)
    requires s == "Seattle/Tacoma, WA"
    ensures FirstAt(s, '/', 7) && FirstAt(s, ',', 14)
    ensures s[..7] + s[14..] == "Seattle, WA"
  {
    assert s[..7] == "Seattle";
    assert s[..14] == "Seattle/Tacoma";
    var kept := s[..7] + s[14..];
    assert |kept| == 11;
    assert forall k :: 0 <= k < 7 ==> kept[k] == s[k];
    assert forall k :: 7 <= k < 11 ==> kept[k] == s[k + 7];
  }

  /** "Fajardo, PR" becomes "Fajardo, Puerto Rico". */
  lemma CleanCityFajardo(s: string)
    requires s == "Fajardo, PR"
    ensures CleanCity(s) == "Fajardo, Puerto Rico"
  {
    assert FirstAt(s, ',', 7);
    assert ',' !in s[8..];
    assert '/' !in s;
    forall j ensures !OccursAt(s, ", CA", j) && !OccursAt(s, ", LA", j) {
      if OccursAt(s, ", CA", j) { OnlyCommaOccurrence(s, ", CA", 7, j); }
      if OccursAt(s, ", LA", j) { OnlyCommaOccurrence(s, ", LA", 7, j); }
    }
    assert OccursAt(s, ", PR", 7);
    CleanCityPuertoRico(s, 7, 7);
  }

  /** "Guam, TT" becomes "Guam". */
  lemma CleanCityGuam(s: string)
    requires s == "Guam, TT"
    ensures CleanCity(s) == "Guam"
  {
    assert FirstAt(s, ',', 4);
    assert '/' !in s;
    CleanCityTerritory(s, 4);
  }

  /** "Seattle, WA" matches no rule and is its own key. */
  lemma CleanCitySeattle(s: string)
    requires s == "Seattle, WA"
    ensures CleanCity(s) == s
  {
    assert FirstAt(s, ',', 7);
    assert ',' !in s[8..];
    assert '/' !in s;
    forall j ensures !OccursAt(s, ", CA", j) && !OccursAt(s, ", LA", j) && !OccursAt(s, ", PR", j) {
      if OccursAt(s, ", CA", j) { OnlyCommaOccurrence(s, ", CA", 7, j); }
      if OccursAt(s, ", LA", j) { OnlyCommaOccurrence(s, ", LA", 7, j); }
      if OccursAt(s, ", PR", j) { OnlyCommaOccurrence(s, ", PR", 7, j); }
    }
    forall c | FirstAt(s, ',', c) ensures s[c..] != ", TT" {
      FindAt(s, ',', c);
      FindAt(s, ',', 7);
    }
    CleanCityUnchanged(s);
  }

  /** With no comma, the slash rule's `s[-1:]` appends the last character: "Foo/Bar" gives "Foor". */
  lemma CleanCitySlashWithoutComma(s: string)
    requires s == "Foo/Bar"
    ensures CleanCity(s) == "Foor"
  {
    assert FirstAt(s, '/', 3);
    assert ',' !in s;
    CleanCitySlashNoComma(s, 3);
  }

  /** The slash rule does not check that the slash precedes the comma: "Akron, OH/Canton" gives "Akron, OH, OH/Canton". */
  lemma CleanCitySlashAfterComma(s: string)
    requires s == "Akron, OH/Canton"
    ensures CleanCity(s) == "Akron, OH, OH/Canton"
  {
    assert s[..9] == "Akron, OH";
    assert s[5..] == ", OH/Canton";
    assert s[..9] + s[5..] == "Akron, OH, OH/Canton";
    assert FirstAt(s, '/', 9);
    assert FirstAt(s, ',', 5);
    CleanCitySlash(s, 9, 5);
  }
}
