/**
 The static publication catalog (src/data.js): one record per paper, defined at
 build time and never changed at run time.
 */
module Data {

  /**
   One publication record, with the fields the list logic reads; text fields
   stay strings, as in the source. The title, authors, category label and
   colour class are only interpolated into markup and are not part of the model.
   */
  datatype Publication = Publication(
    id: string,
    year: int,
    category: string,
    doi: string,
    doiLabel: string,
    status: string)

  /** The fixed set of status tags a record may carry. */
  const Statuses: set<string> := {"Published", "Preprint", "In Review"}

  /** Identifiers are pairwise distinct. */
  predicate DistinctIds(pubs: seq<Publication>) {
    forall i, j :: 0 <= i < j < |pubs| ==> pubs[i].id != pubs[j].id
  }

  /** Category tags are pairwise distinct. */
  predicate DistinctCategories(pubs: seq<Publication>) {
    forall i, j :: 0 <= i < j < |pubs| ==> pubs[i].category != pubs[j].category
  }

  /** A link and its label are either both present or both absent. */
  predicate LinkConsistent(p: Publication) {
    p.doi == "" <==> p.doiLabel == ""
  }

  /** Every record's link and label agree. */
  predicate LinksConsistent(pubs: seq<Publication>) {
    forall i :: 0 <= i < |pubs| ==> LinkConsistent(pubs[i])
  }

  /** Every record's status is one of the fixed set. */
  predicate KnownStatuses(pubs: seq<Publication>) {
    forall i :: 0 <= i < |pubs| ==> pubs[i].status in Statuses
  }

  /** The invariants the catalog is written to keep. */
  predicate WellFormed(pubs: seq<Publication>) {
    DistinctIds(pubs) && LinksConsistent(pubs) && KnownStatuses(pubs)
  }

  /** Every record dates from year `y1` or year `y2`. */
  predicate TwoYears(pubs: seq<Publication>, y1: int, y2: int) {
    forall i :: 0 <= i < |pubs| ==> pubs[i].year == y1 || pubs[i].year == y2
  }

  const Pub1 := Publication("pub1", 2024, "computer-vision",
    "https://doi.org/10.1049/ccs2.12114",
    "DOI: 10.1049/ccs2.12114", "Published")

  const Pub2 := Publication("pub2", 2024, "nlp",
    "http://dx.doi.org/10.1109/COMPAS60761.2024.10796319",
    "DOI: 10.1109/COMPAS60761.2024.10796319", "Published")

  const Pub3 := Publication("pub3", 2025, "medical-ai",
    "https://doi.org/10.1109/DASA63652.2024.10836274",
    "DOI: 10.1109/DASA63652.2024.10836274", "Published")

  const Pub4 := Publication("pub4", 2024, "astrophysics",
    "https://papers.ssrn.com/sol3/papers.cfm?abstract_id=5148444",
    "SSRN 5148444", "Preprint")

  const Pub5 := Publication("pub5", 2024, "autonomous-vehicles",
    "https://dl.acm.org/doi/full/10.1145/3723178.3723232",
    "DOI: 10.1145/3723178.3723232", "Published")

  const Pub6 := Publication("pub6", 2024, "graph-neural-networks",
    "https://ieeexplore.ieee.org/abstract/document/11022525",
    "DOI: 10.1109/ICCIT64611.2024.11022525", "Published")

  const Pub7 := Publication("pub7", 2024, "healthcare-ai",
    "https://ieeexplore.ieee.org/abstract/document/11022412",
    "DOI: 10.1109/ICCIT64611.2024.11022412", "Published")

  const Pub8 := Publication("pub8", 2025, "time-series",
    "https://ieeexplore.ieee.org/abstract/document/11034710",
    "DOI: 10.1109/ICCIT64611.2024.11022525", "Published")

  const Pub9 := Publication("pub9", 2025, "remote-sensing", "", "", "In Review")

  /** The catalog in source order. */
  const Publications: seq<Publication> := [Pub1, Pub2, Pub3, Pub4, Pub5, Pub6, Pub7, Pub8, Pub9]

  /** The catalog keeps its own invariants: distinct ids, consistent links, known statuses. */
  lemma PublicationsWellFormed()
    ensures WellFormed(Publications)
  {
    assert DistinctIds(Publications);
    assert LinksConsistent(Publications);
    assert KnownStatuses(Publications);
  }

  /** Every category tag occurs once, so each tag names exactly one record. */
  lemma PublicationsDistinctCategories()
    ensures DistinctCategories(Publications)
  {
  }

  /** `pub9` is the one record without a link (and without a link label). */
  lemma OnlyPub9Unlinked()
    ensures forall i :: 0 <= i < |Publications| ==> (Publications[i].doi == "" <==> Publications[i].id == "pub9")
    ensures forall i :: 0 <= i < |Publications| ==> (Publications[i].doiLabel == "" <==> Publications[i].id == "pub9")
  {
  }

  /** Every record dates from 2024 or 2025. */
  lemma PublicationsYears()
    ensures TwoYears(Publications, 2024, 2025)
  {
  }

  /** `pub8` repeats the link label of `pub6` although the two links differ. */
  lemma Pub8RepeatsPub6Label()
    ensures Pub6.doiLabel == Pub8.doiLabel && Pub6.doi != Pub8.doi
  {
  }
}
