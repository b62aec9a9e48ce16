/** The keyword categoriser used when the zero-shot classifier fails while
    a report is processed: five keyword lists are matched, as substrings,
    against the lower-cased description, and the category with the most
    matching keywords wins, the first one listed winning ties. When no
    keyword matches at all, the report keeps its default category "Otros". */
module CategoryHeuristic {
  import opened Text

  /** The categories scored, in the order of the `counts` dict. */
  const Categories: seq<string> := ["Farola", "Banco", "Papelera", "Señalización", "Contenedor"]

  /** The category a report keeps when nothing decides otherwise. */
  const DefaultCategory: string := "Otros"

  const FarolaKeywords: seq<string> := [
    "farola", "streetlight", "lamp", "luz", "iluminación", "poste", "poste de luz",
    "lámpara", "luminaria", "alumbrado", "farol", "farolillo", "luz pública"
  ]
  const BancoKeywords: seq<string> := ["banco", "bench", "asiento", "banca"]
  const PapeleraKeywords: seq<string> := ["papelera", "trash", "basura", "contenedor", "waste", "litter"]
  const SenalKeywords: seq<string> := ["señal", "sign", "señalización", "traffic", "tráfico", "semáforo"]
  const ContenedorKeywords: seq<string> := ["contenedor", "bin", "container", "reciclaje", "recycling"]

  /** The keyword list of each category, in the order of `Categories`. */
  const CategoryKeywords: seq<seq<string>> :=
    [FarolaKeywords, BancoKeywords, PapeleraKeywords, SenalKeywords, ContenedorKeywords]

  /** The five counts: how many keywords of each list occur in the
      lower-cased description, each bounded by its list's length. */
  function Counts(description: string): (c: seq<nat>)
    ensures |c| == |Categories|
    ensures forall i :: 0 <= i < |c| ==> c[i] == KeywordCount(CategoryKeywords[i], LowerStr(description))
    ensures forall i :: 0 <= i < |c| ==> c[i] <= |CategoryKeywords[i]|
  {
    var lowered := LowerStr(description);
    seq(|CategoryKeywords|, i requires 0 <= i < |CategoryKeywords| => KeywordCount(CategoryKeywords[i], lowered))
  }

  /** The index `max(counts.items(), key=...)` picks: Python scans from the
      left and replaces its candidate only by a strictly larger count, so
      the result is the first maximal entry. */
  function FirstMaxIndex(xs: seq<nat>): (m: nat)
    requires |xs| > 0
    ensures m < |xs|
    ensures forall j :: 0 <= j < |xs| ==> xs[j] <= xs[m]
    ensures forall j :: 0 <= j < m ==> xs[j] < xs[m]
  {
    if |xs| == 1 then 0
    else
      var best := FirstMaxIndex(xs[..|xs| - 1]);
      if xs[|xs| - 1] > xs[best] then |xs| - 1 else best
  }

  /** The category the heuristic assigns to a description. */
  function HeuristicCategory(description: string): string {
    var counts := Counts(description);
    if counts[FirstMaxIndex(counts)] > 0 then Categories[FirstMaxIndex(counts)] else DefaultCategory
  }

  /** The heuristic answers "Otros" exactly when no keyword of any list
      occurs; otherwise it answers a category with a maximal count, and no
      category listed before it has that count. */
  lemma HeuristicCategoryChoice(description: string)
    ensures var counts := Counts(description);
      HeuristicCategory(description) == DefaultCategory <==> forall i :: 0 <= i < |counts| ==> counts[i] == 0
    ensures var counts := Counts(description);
      HeuristicCategory(description) != DefaultCategory ==>
        exists i :: (&& 0 <= i < |Categories|
                     && HeuristicCategory(description) == Categories[i]
                     && 0 < counts[i]
                     && (forall j :: 0 <= j < |counts| ==> counts[j] <= counts[i])
                     && (forall j :: 0 <= j < i ==> counts[j] < counts[i]))
  {
    var counts := Counts(description);
    var m := FirstMaxIndex(counts);
    assert DefaultCategory !in Categories;
    if counts[m] > 0 {
      assert Categories[m] != DefaultCategory;
    }
  }

  /** The heuristic answers "Otros" exactly when no keyword of any of the
      five lists occurs in the lower-cased description. */
  lemma OtrosIffNoKeyword(description: string)
    ensures HeuristicCategory(description) == DefaultCategory <==>
      forall i, j :: 0 <= i < |CategoryKeywords| && 0 <= j < |CategoryKeywords[i]| ==>
        !Contains(LowerStr(description), CategoryKeywords[i][j])
  {
    HeuristicCategoryChoice(description);
  }

  /** "contenedor" is a keyword of both the Papelera and the Contenedor
      lists, so a description whose only keyword is "contenedor" scores 1
      for both and goes to Papelera, listed first. */
  lemma ContenedorGoesToPapelera(description: string)
    requires Contains(LowerStr(description), "contenedor")
    requires forall i, j :: (0 <= i < |CategoryKeywords| && 0 <= j < |CategoryKeywords[i]|
                             && CategoryKeywords[i][j] != "contenedor")
                             ==> !Contains(LowerStr(description), CategoryKeywords[i][j])
    ensures HeuristicCategory(description) == "Papelera"
  {
    var counts := Counts(description);
    forall i | 0 <= i < |Categories|
      ensures counts[i] == if i == 2 || i == 4 then 1 else 0
    {
      OnlyContenedorCount(i, LowerStr(description));
    }
    assert counts == [0, 0, 1, 0, 1];
    PapeleraWins(description, counts);
  }

  /** The list of category `i` scores its number of "contenedor" entries
      when that is the only keyword present. */
  lemma OnlyContenedorCount(i: nat, text: string)
    requires i < |CategoryKeywords|
    requires Contains(text, "contenedor")
    requires forall j :: 0 <= j < |CategoryKeywords[i]| && CategoryKeywords[i][j] != "contenedor"
               ==> !Contains(text, CategoryKeywords[i][j])
    ensures KeywordCount(CategoryKeywords[i], text) == if i == 2 || i == 4 then 1 else 0
  {
    var keywords := CategoryKeywords[i];
    KeywordCountOnly(keywords, text, "contenedor");
    if i == 0 {
      NotIn(keywords, FarolaKeywords);
    } else if i == 1 {
      NotIn(keywords, BancoKeywords);
    } else if i == 2 {
      OnceIn(keywords, PapeleraKeywords);
    } else if i == 3 {
      NotIn(keywords, SenalKeywords);
    } else {
      OnceIn(keywords, ContenedorKeywords);
    }
  }

  lemma NotIn(keywords: seq<string>, list: seq<string>)
    requires keywords == list
    requires list == FarolaKeywords || list == BancoKeywords || list == SenalKeywords
    ensures multiset(keywords)["contenedor"] == 0
  {
    if list == FarolaKeywords {
      FarolaLacksContenedor(keywords);
    } else if list == BancoKeywords {
      BancoLacksContenedor(keywords);
    } else {
      SenalLacksContenedor(keywords);
    }
  }

  lemma FarolaLacksContenedor(keywords: seq<string>)
    requires keywords == FarolaKeywords
    ensures multiset(keywords)["contenedor"] == 0
  {
    assert keywords == keywords[..7] + keywords[7..];
    assert "contenedor" !in keywords[..7];
    assert "contenedor" !in keywords[7..];
  }

  lemma BancoLacksContenedor(keywords: seq<string>)
    requires keywords == BancoKeywords
    ensures multiset(keywords)["contenedor"] == 0
  {
  }

  lemma SenalLacksContenedor(keywords: seq<string>)
    requires keywords == SenalKeywords
    ensures multiset(keywords)["contenedor"] == 0
  {
  }

  lemma OnceIn(keywords: seq<string>, list: seq<string>)
    requires keywords == list
    requires list == PapeleraKeywords || list == ContenedorKeywords
    ensures multiset(keywords)["contenedor"] == 1
  {
    if list == PapeleraKeywords {
      PapeleraHasContenedorOnce(keywords);
    } else {
      ContenedorHasContenedorOnce(keywords);
    }
  }

  lemma PapeleraHasContenedorOnce(keywords: seq<string>)
    requires keywords == PapeleraKeywords
    ensures multiset(keywords)["contenedor"] == 1
  {
    assert keywords == keywords[..3] + [keywords[3]] + keywords[4..];
    assert "contenedor" !in keywords[..3];
    assert "contenedor" !in keywords[4..];
  }

  lemma ContenedorHasContenedorOnce(keywords: seq<string>)
    requires keywords == ContenedorKeywords
    ensures multiset(keywords)["contenedor"] == 1
  {
    assert keywords == [keywords[0]] + keywords[1..];
    assert "contenedor" !in keywords[1..];
  }

  /** The counts [0, 0, 1, 0, 1] pick Papelera. */
  lemma PapeleraWins(description: string, counts: seq<nat>)
    requires counts == Counts(description) && counts == [0, 0, 1, 0, 1]
    ensures HeuristicCategory(description) == "Papelera"
  {
    assert FirstMaxIndex(counts[..1]) == 0;
    assert FirstMaxIndex(counts[..2]) == 0;
    assert FirstMaxIndex(counts[..3]) == 2;
    assert FirstMaxIndex(counts[..4]) == 2;
    assert counts[..5] == counts;
  }
}
