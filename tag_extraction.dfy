/** Reading the asset tag: six `re.search` patterns pull the ID, state,
    installation date, last review date, type and observations out of the
    text recognised on the photographed label, and every field whose pattern
    does not match is stored as "No disponible".

    Each pattern is a literal label, `\s*`, and one capture group: a greedy
    run of one character class (`[A-Z0-9-]+`, `\w+` or `.+`) or an ISO date
    `\d{4}-\d{2}-\d{2}`. */
module TagExtraction {
  import opened Text
  import opened Wrappers

  datatype CharClass = TagIdChars | WordChars | AnyButNewline

  /** `[A-Z0-9-]`, `\w` and `.` (which does not match a newline). */
  predicate InClass(cls: CharClass, c: char) {
    match cls
    case TagIdChars => IsAsciiUpper(c) || IsDigit(c) || c == '-'
    case WordChars => IsWordChar(c)
    case AnyButNewline => c != '\n'
  }

  datatype Capture = RunOf(cls: CharClass) | IsoDate

  /** `<prefix>\s*(<capture>)`. */
  datatype TagPattern = TagPattern(prefix: string, capture: Capture)

  const IdPattern := TagPattern("ID:", RunOf(TagIdChars))
  const StatePattern := TagPattern("Estado:", RunOf(WordChars))
  const InstallationPattern := TagPattern("Fecha de instalación:", IsoDate)
  const ReviewPattern := TagPattern("Última revisión:", IsoDate)
  const TypePattern := TagPattern("Tipo:", RunOf(AnyButNewline))
  const ObservationsPattern := TagPattern("Observaciones:", RunOf(AnyButNewline))

  /** The length of the whitespace run of `text` starting at `i`. */
  function SpaceRun(text: string, i: nat): (n: nat)
    requires i <= |text|
    ensures i + n <= |text|
    ensures forall j :: i <= j < i + n ==> IsSpace(text[j])
    ensures i + n == |text| || !IsSpace(text[i + n])
    decreases |text| - i
  {
    if i < |text| && IsSpace(text[i]) then 1 + SpaceRun(text, i + 1) else 0
  }

  /** The length of the run of `cls` characters of `text` starting at `i`. */
  function ClassRun(text: string, i: nat, cls: CharClass): (n: nat)
    requires i <= |text|
    ensures i + n <= |text|
    ensures forall j :: i <= j < i + n ==> InClass(cls, text[j])
    ensures i + n == |text| || !InClass(cls, text[i + n])
    decreases |text| - i
  {
    if i < |text| && InClass(cls, text[i]) then 1 + ClassRun(text, i + 1, cls) else 0
  }

  predicate IsIsoDate(d: string) {
    && |d| == 10
    && IsDigit(d[0]) && IsDigit(d[1]) && IsDigit(d[2]) && IsDigit(d[3]) && d[4] == '-'
    && IsDigit(d[5]) && IsDigit(d[6]) && d[7] == '-' && IsDigit(d[8]) && IsDigit(d[9])
  }

  /** `v` is a whole run of `cls` characters of `text`, starting at `q`: it
      is not empty and cannot be extended to the right. */
  predicate MaximalRunAt(text: string, q: int, cls: CharClass, v: string) {
    && 0 <= q && q + |v| <= |text| && text[q..q + |v|] == v && v != []
    && (forall c :: c in v ==> InClass(cls, c))
    && (q + |v| == |text| || !InClass(cls, text[q + |v|]))
  }

  /** Every character of `text` from `i` up to `j` is whitespace. */
  predicate SpacesBetween(text: string, i: int, j: int) {
    0 <= i <= j <= |text| && forall x :: i <= x < j ==> IsSpace(text[x])
  }

  /** The capture group can begin at `q`: a character of the class, or an
      ISO date. */
  predicate CaptureStartsAt(text: string, q: int, cap: Capture) {
    match cap
    case RunOf(cls) => 0 <= q < |text| && InClass(cls, text[q])
    case IsoDate => 0 <= q && q + 10 <= |text| && IsIsoDate(text[q..q + 10])
  }

  /** `v` is what the capture group takes when it begins at `q`: the whole
      run of the class (the group is greedy), or the ten characters of the
      date. */
  predicate CapturedAt(text: string, q: int, cap: Capture, v: string) {
    match cap
    case RunOf(cls) => MaximalRunAt(text, q, cls, v)
    case IsoDate => 0 <= q && q + 10 <= |text| && v == text[q..q + 10] && IsIsoDate(v)
  }

  lemma CapturedStarts(text: string, q: int, cap: Capture, v: string)
    requires CapturedAt(text, q, cap, v)
    ensures CaptureStartsAt(text, q, cap)
  {
    if cap.RunOf? {
      assert text[q] == v[0] && v[0] in v;
    }
  }

  /** The capture once `\s*` has taken `k` of the whitespace characters after
      the label at `start`: the regex engine tries the greedy choice first
      and gives characters back one at a time, so the capture begins at the
      last position up to `start + k` where it can. */
  function CaptureAfter(text: string, start: nat, k: nat, cap: Capture): (r: Option<string>)
    requires start + k <= |text|
    ensures r.Some? ==> exists q :: (start <= q <= start + k && CapturedAt(text, q, cap, r.value)
      && forall q' :: q < q' <= start + k ==> !CaptureStartsAt(text, q', cap))
    ensures r.None? ==> forall q :: start <= q <= start + k ==> !CaptureStartsAt(text, q, cap)
    decreases k
  {
    var found := CaptureAt(text, start + k, cap);
    if found.Some? || k == 0 then found else CaptureAfter(text, start, k - 1, cap)
  }

  /** The capture group tried at `q` alone. */
  function CaptureAt(text: string, q: nat, cap: Capture): (r: Option<string>)
    requires q <= |text|
    ensures r.Some? ==> CapturedAt(text, q, cap, r.value)
    ensures r.None? ==> !CaptureStartsAt(text, q, cap)
  {
    match cap
    case RunOf(cls) =>
      if q < |text| && InClass(cls, text[q]) then
        var v := text[q..q + ClassRun(text, q, cls)];
        assert MaximalRunAt(text, q, cls, v);
        Some(v)
      else None
    case IsoDate =>
      if q + 10 <= |text| && IsIsoDate(text[q..q + 10]) then Some(text[q..q + 10]) else None
  }

  /** The pattern matches at `p`: the label there, then whitespace, then a
      place where the capture group can begin. */
  ghost predicate MatchesAt(text: string, pat: TagPattern, p: int) {
    && OccursAt(text, pat.prefix, p)
    && exists q :: SpacesBetween(text, p + |pat.prefix|, q) && CaptureStartsAt(text, q, pat.capture)
  }

  /** A match at `p` captures `v` beginning at `q`: `q` is the last position
      reachable through the whitespace after the label where the capture
      group can begin, since `\s*` is greedy and gives back one character
      at a time. */
  ghost predicate CapturedAfterLabel(text: string, pat: TagPattern, p: int, q: int, v: string) {
    && OccursAt(text, pat.prefix, p)
    && SpacesBetween(text, p + |pat.prefix|, q)
    && CapturedAt(text, q, pat.capture, v)
    && forall q' :: q < q' && SpacesBetween(text, p + |pat.prefix|, q') ==> !CaptureStartsAt(text, q', pat.capture)
  }

  /** What the pattern captures when its match starts at `p`. */
  function MatchAt(text: string, pat: TagPattern, p: nat): (r: Option<string>)
    ensures r.Some? <==> MatchesAt(text, pat, p)
    ensures r.Some? ==> exists q :: CapturedAfterLabel(text, pat, p, q, r.value)
  {
    if OccursAt(text, pat.prefix, p) then
      var start := p + |pat.prefix|;
      var w := SpaceRun(text, start);
      var r := CaptureAfter(text, start, w, pat.capture);
      MatchAfterSpaces(text, pat, p, w, r);
      r
    else None
  }

  /** The capture tried after the whole whitespace run, and then with
      fewer and fewer of its characters, is the capture of the match. */
  lemma MatchAfterSpaces(text: string, pat: TagPattern, p: nat, w: nat, r: Option<string>)
    requires OccursAt(text, pat.prefix, p)
    requires var start := p + |pat.prefix|;
      && SpacesBetween(text, start, start + w)
      && (start + w == |text| || !IsSpace(text[start + w]))
    requires var start := p + |pat.prefix|;
      && (r.Some? ==> exists q :: (start <= q <= start + w && CapturedAt(text, q, pat.capture, r.value)
            && forall q' :: q < q' <= start + w ==> !CaptureStartsAt(text, q', pat.capture)))
      && (r.None? ==> forall q :: start <= q <= start + w ==> !CaptureStartsAt(text, q, pat.capture))
    ensures r.Some? <==> MatchesAt(text, pat, p)
    ensures r.Some? ==> exists q :: CapturedAfterLabel(text, pat, p, q, r.value)
  {
    var start := p + |pat.prefix|;
    forall q' | SpacesBetween(text, start, q') ensures q' <= start + w {}
    if r.Some? {
      var q :| start <= q <= start + w && CapturedAt(text, q, pat.capture, r.value)
        && forall q' :: q < q' <= start + w ==> !CaptureStartsAt(text, q', pat.capture);
      CapturedStarts(text, q, pat.capture, r.value);
      assert SpacesBetween(text, start, q);
      assert CapturedAfterLabel(text, pat, p, q, r.value);
    }
  }

  /** `re.search` from position `p` on: the capture of the leftmost match. */
  function SearchFrom(text: string, pat: TagPattern, p: nat): (r: Option<string>)
    ensures r.Some? ==>
      exists m :: (p <= m && MatchAt(text, pat, m) == r
                   && forall q :: p <= q < m ==> MatchAt(text, pat, q).None?)
    ensures r.None? <==> forall q :: p <= q ==> MatchAt(text, pat, q).None?
    decreases |text| + 1 - p
  {
    if p > |text| then
      assert forall q :: p <= q ==> MatchAt(text, pat, q).None?;
      None
    else if MatchAt(text, pat, p).Some? then MatchAt(text, pat, p)
    else
      var r := SearchFrom(text, pat, p + 1);
      assert forall q :: p <= q <= p ==> MatchAt(text, pat, q).None?;
      r
  }

  function Search(text: string, pat: TagPattern): Option<string> {
    SearchFrom(text, pat, 0)
  }

  /** `v` is captured by the leftmost match, which is at `p`, beginning at
      `q`. */
  ghost predicate LeftmostCapture(text: string, pat: TagPattern, p: int, q: int, v: string) {
    && (forall p' :: 0 <= p' < p ==> !MatchesAt(text, pat, p'))
    && CapturedAfterLabel(text, pat, p, q, v)
  }

  /** The pattern matches at no position of `text`. */
  ghost predicate MatchesNowhere(text: string, pat: TagPattern) {
    forall p: nat :: !MatchesAt(text, pat, p)
  }

  /** `v` is the capture of the leftmost match of the pattern. */
  ghost predicate CapturedByLeftmost(text: string, pat: TagPattern, v: string) {
    exists p: nat, q :: LeftmostCapture(text, pat, p, q, v)
  }

  /** `re.search`: nothing when the pattern matches nowhere, and otherwise
      the capture of the leftmost match. */
  lemma SearchCapture(text: string, pat: TagPattern)
    ensures Search(text, pat).None? <==> MatchesNowhere(text, pat)
    ensures Search(text, pat).Some? ==> CapturedByLeftmost(text, pat, Search(text, pat).value)
  {
    var r := SearchFrom(text, pat, 0);
    if r.Some? {
      var m: nat :| MatchAt(text, pat, m) == r && forall q :: 0 <= q < m ==> MatchAt(text, pat, q).None?;
      forall p' | 0 <= p' < m ensures !MatchesAt(text, pat, p') {
        assert MatchAt(text, pat, p').None?;
      }
      var q :| CapturedAfterLabel(text, pat, m, q, r.value);
      assert LeftmostCapture(text, pat, m, q, r.value);
    } else {
      forall p: nat ensures !MatchesAt(text, pat, p) {
        assert MatchAt(text, pat, p).None?;
      }
    }
  }

  /** The regex `ID:\s*([A-Z0-9-]+)` matches at `p`: the label, then some
      whitespace, then a tag character. */
  ghost predicate IdMatchesAt(text: string, p: nat) {
    exists k: nat :: IdMatchAfterSpaces(text, p, k)
  }

  predicate IdMatchAfterSpaces(text: string, p: nat, k: nat) {
    && OccursAt(text, "ID:", p) && p + 3 + k < |text|
    && (forall j :: p + 3 <= j < p + 3 + k ==> IsSpace(text[j]))
    && InClass(TagIdChars, text[p + 3 + k])
  }

  /** Because whitespace is not a tag character, the ID pattern matches at
      `p` exactly when "ID:" is there followed by optional whitespace and a
      tag character, and it then captures the whole run of tag characters
      that begins right after all of that whitespace. */
  lemma IdMatchAtIff(text: string, p: nat)
    ensures MatchAt(text, IdPattern, p).Some? <==> IdMatchesAt(text, p)
    ensures MatchAt(text, IdPattern, p).Some? ==>
      MaximalRunAt(text, p + 3 + SpaceRun(text, p + 3), TagIdChars, MatchAt(text, IdPattern, p).value)
  {
    var r := MatchAt(text, IdPattern, p);
    IdMatchesIff(text, p);
    if r.Some? {
      var q :| CapturedAfterLabel(text, IdPattern, p, q, r.value);
      IdCaptureAfterRun(text, p, q, r.value);
    }
  }

  /** The generic match condition, for the ID pattern. */
  lemma IdMatchesIff(text: string, p: nat)
    ensures MatchesAt(text, IdPattern, p) <==> IdMatchesAt(text, p)
  {
    if MatchesAt(text, IdPattern, p) {
      var q :| SpacesBetween(text, p + 3, q) && CaptureStartsAt(text, q, RunOf(TagIdChars));
      assert IdMatchAfterSpaces(text, p, q - p - 3);
    }
    if IdMatchesAt(text, p) {
      var k: nat :| IdMatchAfterSpaces(text, p, k);
      assert SpacesBetween(text, p + 3, p + 3 + k) && CaptureStartsAt(text, p + 3 + k, RunOf(TagIdChars));
    }
  }

  /** A tag character is not whitespace, so the capture of the ID pattern
      begins right after the whole whitespace run. */
  lemma IdCaptureAfterRun(text: string, p: nat, q: int, v: string)
    requires CapturedAfterLabel(text, IdPattern, p, q, v)
    ensures q == p + 3 + SpaceRun(text, p + 3)
  {
    var w := SpaceRun(text, p + 3);
    assert text[q] == v[0] && v[0] in v;
    assert InClass(TagIdChars, text[q]) && !IsSpace(text[q]);
  }

  /** The value stored for a tag field. */
  function FieldValue(m: Option<string>): string {
    match m
    case Some(v) => v
    case None => "No disponible"
  }

  /** What is stored for the field read by `pat`: its capture, or
      "No disponible". */
  function Tag(detected: string, pat: TagPattern): string {
    FieldValue(Search(detected, pat))
  }

  /** The six tag fields of `incidence_data`, from their values. */
  function TagFieldsOf(id: string, state: string, installed: string, reviewed: string,
                       kind: string, notes: string): map<string, string>
  {
    map[
      "ID" := id,
      "Estado" := state,
      "Fecha de instalación" := installed,
      "Última revisión" := reviewed,
      "Tipo" := kind,
      "Observaciones" := notes
    ]
  }

  /** The six tag fields read from the recognised text. */
  function TagFields(detected: string): map<string, string> {
    TagFieldsOf(Tag(detected, IdPattern), Tag(detected, StatePattern), Tag(detected, InstallationPattern),
                Tag(detected, ReviewPattern), Tag(detected, TypePattern), Tag(detected, ObservationsPattern))
  }

  lemma TagFieldsOfLookup(id: string, state: string, installed: string, reviewed: string,
                          kind: string, notes: string)
    ensures var m := TagFieldsOf(id, state, installed, reviewed, kind, notes);
      && m.Keys == {"ID", "Estado", "Fecha de instalación", "Última revisión", "Tipo", "Observaciones"}
      && m["ID"] == id && m["Estado"] == state && m["Fecha de instalación"] == installed
      && m["Última revisión"] == reviewed && m["Tipo"] == kind && m["Observaciones"] == notes
  {
  }

  /** Looking up the six fields. */
  lemma TagFieldsLookup(detected: string)
    ensures TagFields(detected)["ID"] == Tag(detected, IdPattern)
    ensures TagFields(detected)["Estado"] == Tag(detected, StatePattern)
    ensures TagFields(detected)["Fecha de instalación"] == Tag(detected, InstallationPattern)
    ensures TagFields(detected)["Última revisión"] == Tag(detected, ReviewPattern)
    ensures TagFields(detected)["Tipo"] == Tag(detected, TypePattern)
    ensures TagFields(detected)["Observaciones"] == Tag(detected, ObservationsPattern)
  {
    TagFieldsOfLookup(Tag(detected, IdPattern), Tag(detected, StatePattern), Tag(detected, InstallationPattern),
                      Tag(detected, ReviewPattern), Tag(detected, TypePattern), Tag(detected, ObservationsPattern));
  }

  /** The capture can never be the text "No disponible": it is a date, or a
      run of a class without the space. */
  predicate NeverNoData(cap: Capture) {
    cap.RunOf? ==> !InClass(cap.cls, ' ')
  }

  /** A field whose capture can never be "No disponible" (a run without
      spaces, or a date) stores that text exactly when its pattern matches
      nowhere, and otherwise the capture of the leftmost match. */
  lemma TagValue(detected: string, pat: TagPattern)
    requires NeverNoData(pat.capture)
    ensures Tag(detected, pat) == "No disponible" <==> MatchesNowhere(detected, pat)
    ensures Tag(detected, pat) != "No disponible" ==> CapturedByLeftmost(detected, pat, Tag(detected, pat))
  {
    SearchCapture(detected, pat);
    var r := Search(detected, pat);
    if r.Some? {
      var p: nat, q :| LeftmostCapture(detected, pat, p, q, r.value);
      assert CapturedAt(detected, q, pat.capture, r.value);
      assert ' ' in "No disponible" && |"No disponible"| != 10;
      if pat.capture.RunOf? {
        assert ' ' !in r.value;
      }
    }
  }

  /** Neither `[A-Z0-9-]` nor `\w` holds the space. */
  lemma ClassesWithoutSpace()
    ensures NeverNoData(IdPattern.capture) && NeverNoData(StatePattern.capture)
  {
    assert !IsWordChar(' ');
  }

  /** `v` is what is stored for a field whose capture can never be
      "No disponible": that text exactly when the pattern matches nowhere,
      and otherwise the capture of the leftmost match. */
  ghost predicate StoredFieldValue(text: string, pat: TagPattern, v: string) {
    && (v == "No disponible" <==> MatchesNowhere(text, pat))
    && (v != "No disponible" ==> CapturedByLeftmost(text, pat, v))
  }

  /** `TagValue` for the field stored under `key`. */
  lemma StoredTagValue(detected: string, key: string, pat: TagPattern)
    requires key in TagFields(detected) && TagFields(detected)[key] == Tag(detected, pat)
    requires NeverNoData(pat.capture)
    ensures StoredFieldValue(detected, pat, TagFields(detected)[key])
  {
    TagValue(detected, pat);
  }

  /** The stored ID is "No disponible" exactly when the pattern matches
      nowhere; otherwise it is the run of `[A-Z0-9-]` captured by the
      leftmost match. */
  lemma IdField(detected: string)
    ensures StoredFieldValue(detected, IdPattern, TagFields(detected)["ID"])
  {
    assert TagFields(detected)["ID"] == Tag(detected, IdPattern) by {
      TagFieldsLookup(detected);
    }
    ClassesWithoutSpace();
    StoredTagValue(detected, "ID", IdPattern);
  }

  /** The stored state is "No disponible" exactly when its pattern matches
      nowhere; otherwise it is the word captured by the leftmost match. */
  lemma StateField(detected: string)
    ensures StoredFieldValue(detected, StatePattern, TagFields(detected)["Estado"])
  {
    assert TagFields(detected)["Estado"] == Tag(detected, StatePattern) by {
      TagFieldsLookup(detected);
    }
    ClassesWithoutSpace();
    StoredTagValue(detected, "Estado", StatePattern);
  }

  /** The stored dates are "No disponible" exactly when their patterns match
      nowhere; otherwise the date captured by the leftmost match. */
  lemma DateFields(detected: string)
    ensures StoredFieldValue(detected, InstallationPattern, TagFields(detected)["Fecha de instalación"])
    ensures StoredFieldValue(detected, ReviewPattern, TagFields(detected)["Última revisión"])
  {
    TagFieldsLookup(detected);
    assert NeverNoData(InstallationPattern.capture) && NeverNoData(ReviewPattern.capture);
    TagValue(detected, InstallationPattern);
    TagValue(detected, ReviewPattern);
  }

  /** Type and observations are "No disponible" when their patterns match
      nowhere, and otherwise the capture of the leftmost match: the run of
      non-newline characters that begins at the last place the whitespace
      after the label lets it, so a label followed by a line break takes
      the next line. */
  lemma LineFields(detected: string)
    ensures MatchesNowhere(detected, TypePattern) ==> TagFields(detected)["Tipo"] == "No disponible"
    ensures !MatchesNowhere(detected, TypePattern) ==>
      CapturedByLeftmost(detected, TypePattern, TagFields(detected)["Tipo"])
    ensures MatchesNowhere(detected, ObservationsPattern) ==>
      TagFields(detected)["Observaciones"] == "No disponible"
    ensures !MatchesNowhere(detected, ObservationsPattern) ==>
      CapturedByLeftmost(detected, ObservationsPattern, TagFields(detected)["Observaciones"])
  {
    TagFieldsLookup(detected);
    SearchCapture(detected, TypePattern);
    SearchCapture(detected, ObservationsPattern);
  }
}
