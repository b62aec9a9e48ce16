/** The parts of the report page and of the technician's list that decide
    which reports get in and which records are shown: the checks a report
    must pass before it is processed, the category it is given, and the
    defaulting and filtering of the records loaded back from storage. */
module ReportIntake {
  import opened Wrappers
  import opened CategoryHeuristic
  import opened TagExtraction

  /** Why a report is refused before any processing. */
  datatype IntakeError = MissingImage | MissingRequiredField | ClassifierUnavailable

  /** The checks of "Procesar Incidencia": an image is required (the camera
      picture is preferred to an uploaded photo), then a location and a
      description, then a loaded classifier. On success the image to
      process is returned. */
  function ValidateReport<Img>(picture: Option<Img>, photo: Option<Img>, location: string,
                               description: string, classifierLoaded: bool): (r: Result<Img, IntakeError>)
    ensures r.Ok? <==> (picture.Some? || photo.Some?) && location != "" && description != "" && classifierLoaded
    ensures r.Ok? && picture.Some? ==> r.value == picture.value
    ensures r.Ok? && picture.None? ==> r.value == photo.value
    ensures r.Err? && r.error == MissingImage <==> picture.None? && photo.None?
    ensures r.Err? && r.error == MissingRequiredField <==>
      (picture.Some? || photo.Some?) && (location == "" || description == "")
  {
    var image := if picture.Some? then picture else photo;
    if image.None? then Err(MissingImage)
    else if location == "" || description == "" then Err(MissingRequiredField)
    else if !classifierLoaded then Err(ClassifierUnavailable)
    else Ok(image.value)
  }

  /** The categories offered by the technician's filter. */
  const FilterOptions: seq<string> :=
    ["Todas", "Farola", "Banco", "Papelera", "Contenedor", "Señalización", "Otros"]

  /** The filter option that shows every record. */
  const ShowAll: string := "Todas"

  /** The category given to a loaded record that has none. */
  const UnknownCategory: string := "Desconocida"

  const CategoryField: string := "Categoría"

  /** A stored incident record: field name to text. */
  type Record = map<string, string>

  /** `categoria` of a processed report: the classifier's choice when it
      answered, else the keyword heuristic over the description, starting
      from the default "Otros". The classifier's answer is an input here. */
  method AssignCategory(description: string, classified: Option<string>) returns (categoria: string)
    ensures classified.Some? ==> categoria == classified.value
    ensures classified.None? ==> categoria == HeuristicCategory(description)
  {
    categoria := DefaultCategory;
    match classified {
      case Some(choice) =>
        categoria := choice;
      case None =>
        var counts := Counts(description);
        var best := FirstMaxIndex(counts);
        if counts[best] > 0 {
          categoria := Categories[best];
        }
    }
  }

  /** Every category the heuristic gives is one the technician can filter
      on, and none of them is "Desconocida". */
  lemma HeuristicCategoryFilterable(description: string)
    ensures HeuristicCategory(description) in FilterOptions
    ensures HeuristicCategory(description) != ShowAll
    ensures HeuristicCategory(description) != UnknownCategory
  {
    HeuristicCategoryChoice(description);
  }

  /** A loaded record with its category defaulted: a missing or empty
      category becomes "Desconocida". */
  function WithCategory(r: Record): Record {
    if CategoryField !in r || r[CategoryField] == "" then r[CategoryField := UnknownCategory] else r
  }

  /** Defaulting changes only the category, gives every record a non-empty
      one, keeps a category that was already there, and is idempotent. */
  lemma WithCategoryFacts(r: Record)
    ensures CategoryField in WithCategory(r) && WithCategory(r)[CategoryField] != ""
    ensures WithCategory(r).Keys == r.Keys + {CategoryField}
    ensures forall k :: k in r && k != CategoryField ==> WithCategory(r)[k] == r[k]
    ensures CategoryField in r && r[CategoryField] != "" ==> WithCategory(r) == r
    ensures CategoryField !in r || r[CategoryField] == "" ==> WithCategory(r)[CategoryField] == UnknownCategory
    ensures WithCategory(WithCategory(r)) == WithCategory(r)
  {
  }

  /** Whether a defaulted record passes the filter. */
  predicate Shown(r: Record, filter: string)
    requires CategoryField in r
  {
    filter == ShowAll || r[CategoryField] == filter
  }

  /** The records `ver_incidencias` collects, in load order. */
  function Visible(loaded: seq<Record>, filter: string): seq<Record> {
    if loaded == [] then []
    else
      var r := WithCategory(loaded[|loaded| - 1]);
      var rest := Visible(loaded[..|loaded| - 1], filter);
      WithCategoryFacts(loaded[|loaded| - 1]);
      if Shown(r, filter) then rest + [r] else rest
  }

  /** Loading the stored records: each one gets its category defaulted and
      is kept when the filter is "Todas" or names its category. */
  method LoadIncidences(loaded: seq<Record>, filter: string) returns (incidences: seq<Record>)
    ensures incidences == Visible(loaded, filter)
  {
    incidences := [];
    for i := 0 to |loaded|
      invariant incidences == Visible(loaded[..i], filter)
    {
      var metadata := loaded[i];
      if CategoryField !in metadata || metadata[CategoryField] == "" {
        metadata := metadata[CategoryField := UnknownCategory];
      }
      if filter == ShowAll || metadata[CategoryField] == filter {
        incidences := incidences + [metadata];
      }
      assert loaded[..i + 1][..i] == loaded[..i];
    }
    assert loaded[..|loaded|] == loaded;
  }

  /** A record is shown exactly when it is the defaulted form of a loaded
      record whose category passes the filter. */
  lemma {:induction false} VisibleMembership(loaded: seq<Record>, filter: string, r: Record)
    ensures r in Visible(loaded, filter) <==>
      exists i :: (&& 0 <= i < |loaded| && r == WithCategory(loaded[i])
                   && (filter == ShowAll || WithCategory(loaded[i])[CategoryField] == filter))
  {
    if loaded != [] {
      var last := |loaded| - 1;
      var init := loaded[..last];
      VisibleMembership(init, filter, r);
      WithCategoryFacts(loaded[last]);
      assert forall i :: 0 <= i < last ==> init[i] == loaded[i];
      if exists i :: (&& 0 <= i < |loaded| && r == WithCategory(loaded[i])
                      && (filter == ShowAll || WithCategory(loaded[i])[CategoryField] == filter)) {
        var i :| && 0 <= i < |loaded| && r == WithCategory(loaded[i])
                 && (filter == ShowAll || WithCategory(loaded[i])[CategoryField] == filter);
        if i < last {
          assert init[i] == loaded[i];
        }
      }
    }
  }

  /** Loading one batch after another shows the records of the first and
      then those of the second. */
  lemma {:induction false} VisibleAppend(a: seq<Record>, b: seq<Record>, filter: string)
    ensures Visible(a + b, filter) == Visible(a, filter) + Visible(b, filter)
    decreases |b|
  {
    if b == [] {
      assert a + b == a;
    } else {
      var last := |b| - 1;
      assert (a + b)[..|a + b| - 1] == a + b[..last];
      assert (a + b)[|a + b| - 1] == b[last];
      VisibleAppend(a, b[..last], filter);
    }
  }

  /** Every shown record has a non-empty category; with a filter other
      than "Todas" it is exactly that filter, so the records defaulted to
      "Desconocida" only show under "Todas" among the offered options. */
  lemma {:induction false} VisibleCategories(loaded: seq<Record>, filter: string)
    ensures forall r :: r in Visible(loaded, filter) ==> CategoryField in r && r[CategoryField] != ""
    ensures filter != ShowAll ==> forall r :: r in Visible(loaded, filter) ==> r[CategoryField] == filter
    ensures filter in FilterOptions && filter != ShowAll ==>
      forall r :: r in Visible(loaded, filter) ==> r[CategoryField] != UnknownCategory
  {
    forall r | r in Visible(loaded, filter)
      ensures CategoryField in r && r[CategoryField] != ""
      ensures filter != ShowAll ==> r[CategoryField] == filter
    {
      VisibleMembership(loaded, filter, r);
      var i :| && 0 <= i < |loaded| && r == WithCategory(loaded[i])
               && (filter == ShowAll || WithCategory(loaded[i])[CategoryField] == filter);
      WithCategoryFacts(loaded[i]);
    }
    assert UnknownCategory !in FilterOptions;
  }

  /** Under "Todas" every loaded record is shown, defaulted, in order. */
  lemma {:induction false} ShowAllKeepsEverything(loaded: seq<Record>)
    ensures Visible(loaded, ShowAll) == seq(|loaded|, i requires 0 <= i < |loaded| => WithCategory(loaded[i]))
  {
    if loaded != [] {
      var last := |loaded| - 1;
      ShowAllKeepsEverything(loaded[..last]);
      WithCategoryFacts(loaded[last]);
    }
  }

  /** `incidence_data` without its timestamp and probabilities: the tag
      fields read from the label, then the location, the two descriptions,
      the recognised text and the category. */
  function StoredRecord(tags: map<string, string>, location: string, descriptionEn: string,
                        descriptionEs: string, detected: string, categoria: string): Record
  {
    tags + map[
      "Ubicación" := location,
      "Descripción adicional (EN)" := descriptionEn,
      "Descripción adicional (ES)" := descriptionEs,
      "Texto Extraído" := detected,
      CategoryField := categoria
    ]
  }

  /** The record a processed report stores, or nothing when no text was
      recognised on the label (the page then only warns). */
  function IncidenceData(detected: string, location: string, descriptionEn: string,
                         descriptionEs: string, categoria: string): Option<Record>
  {
    if detected == "" then None
    else Some(StoredRecord(TagFields(detected), location, descriptionEn, descriptionEs, detected, categoria))
  }

  /** The stored record holds what the page entered under the names the
      bundler, the security tiering and the list read, and keeps every tag
      field it does not overwrite. */
  lemma StoredRecordFields(tags: map<string, string>, location: string, descriptionEn: string,
                           descriptionEs: string, detected: string, categoria: string)
    ensures var r := StoredRecord(tags, location, descriptionEn, descriptionEs, detected, categoria);
      && r.Keys == tags.Keys + {"Ubicación", "Descripción adicional (EN)", "Descripción adicional (ES)",
                                "Texto Extraído", CategoryField}
      && r["Ubicación"] == location
      && r["Descripción adicional (EN)"] == descriptionEn
      && r["Descripción adicional (ES)"] == descriptionEs
      && r["Texto Extraído"] == detected
      && r[CategoryField] == categoria
      && (forall k :: (k in tags && k !in {"Ubicación", "Descripción adicional (EN)", "Descripción adicional (ES)",
                                           "Texto Extraído", CategoryField}) ==> r[k] == tags[k])
  {
  }

  /** A record stored with a non-empty category is loaded back unchanged,
      and a record stored with the heuristic category shows under that
      category's filter. */
  lemma StoredCategorySurvivesLoading(tags: map<string, string>, location: string, descriptionEn: string,
                                      descriptionEs: string, detected: string, categoria: string)
    requires categoria != ""
    ensures var r := StoredRecord(tags, location, descriptionEn, descriptionEs, detected, categoria);
      && WithCategory(r) == r
      && Visible([r], categoria) == [r]
  {
    var r := StoredRecord(tags, location, descriptionEn, descriptionEs, detected, categoria);
    StoredRecordFields(tags, location, descriptionEn, descriptionEs, detected, categoria);
    assert [r][..0] == [];
  }
}
