/**
 * `normalizeSettings` and `normalizeTags`: the user's deck, note type and tag list, read once from
 * extension storage, each field trimmed and replaced by its default when it
 * ends up empty.
 */
module Settings {
  import opened Wrappers
  import opened Text

  datatype Settings = Settings(deckName: string, noteType: string, tags: string)

  /** What storage hands back; a field is None when the stored object lacks it. */
  datatype RawSettings = RawSettings(deckName: Option<string>, noteType: Option<string>, tags: Option<string>)

  const DefaultSettings: Settings := Settings("Passmedicine", "Basic", "passmedicine,passmed2anki")

  /** `raw?.trim() || fallback`. */
  function TrimOrDefault(raw: Option<string>, fallback: string): string
  {
    if raw.Some? && Trim(raw.value) != "" then Trim(raw.value) else fallback
  }

  /**
   * `normalizeSettings(raw)`: every field is the trimmed stored value when that
   * is non-empty and the default otherwise, so no field is ever empty or
   * padded with whitespace.
   */
  function NormalizeSettings(raw: RawSettings): (s: Settings)
    ensures s.deckName != "" && IsTrimmed(s.deckName)
    ensures s.noteType != "" && IsTrimmed(s.noteType)
    ensures s.tags != "" && IsTrimmed(s.tags)
    ensures s.deckName == (if raw.deckName.Some? && Trim(raw.deckName.value) != "" then Trim(raw.deckName.value) else DefaultSettings.deckName)
    ensures s.noteType == (if raw.noteType.Some? && Trim(raw.noteType.value) != "" then Trim(raw.noteType.value) else DefaultSettings.noteType)
    ensures s.tags == (if raw.tags.Some? && Trim(raw.tags.value) != "" then Trim(raw.tags.value) else DefaultSettings.tags)
  {
    Settings(
      TrimOrDefault(raw.deckName, DefaultSettings.deckName),
      TrimOrDefault(raw.noteType, DefaultSettings.noteType),
      TrimOrDefault(raw.tags, DefaultSettings.tags))
  }

  /** Storing normalised settings and reading them back changes nothing. */
  lemma NormalizeSettingsIdempotent(raw: RawSettings)
    ensures var s := NormalizeSettings(raw);
            NormalizeSettings(RawSettings(Some(s.deckName), Some(s.noteType), Some(s.tags))) == s
  {
    var s := NormalizeSettings(raw);
    TrimFixesTrimmed(s.deckName);
    TrimFixesTrimmed(s.noteType);
    TrimFixesTrimmed(s.tags);
  }

  /** An empty store yields the defaults. */
  lemma NormalizeSettingsOfEmpty()
    ensures NormalizeSettings(RawSettings(None, None, None)) == DefaultSettings
  {
  }

  /** Each string trimmed, in order. */
  function TrimAll(parts: seq<string>): seq<string>
  {
    seq(|parts|, i requires 0 <= i < |parts| => Trim(parts[i]))
  }

  /** `normalizeTags(tagString)`: split on commas, trim each piece, drop the empty ones. */
  function NormalizeTags(tagString: string): seq<string>
  {
    NonEmpty(TrimAll(Split(tagString, ',')))
  }

  /**
   * The tags of comma-separated pieces are the pieces, trimmed, with the empty
   * ones dropped, in the pieces' order (`NonEmptyAppend` spells that order out).
   */
  lemma NormalizeTagsOfPieces(pieces: seq<string>)
    requires |pieces| >= 1 && forall p :: p in pieces ==> ',' !in p
    ensures NormalizeTags(Join(pieces, ",")) == NonEmpty(TrimAll(pieces))
  {
    SplitJoin(pieces, ',');
  }

  /** A comma-free piece yields its trimmed self as the one tag, or no tag when that is empty. */
  lemma NormalizeTagsOfPiece(p: string)
    requires ',' !in p
    ensures NormalizeTags(p) == if Trim(p) == "" then [] else [Trim(p)]
  {
    SplitWithoutSeparator(p, ',');
    assert TrimAll([p]) == [Trim(p)];
    NonEmptyOne(Trim(p));
  }

  /** Trimming pieces that lack a character leaves trimmed pieces that still lack it. */
  lemma TrimAllKeepsAbsence(parts: seq<string>, c: char)
    requires forall p :: p in parts ==> c !in p
    ensures forall t :: t in TrimAll(parts) ==> IsTrimmed(t) && c !in t
  {
    forall t | t in TrimAll(parts)
      ensures IsTrimmed(t) && c !in t
    {
      var i :| 0 <= i < |parts| && TrimAll(parts)[i] == t;
      assert parts[i] in parts;
      TrimKeepsAbsence(parts[i], c);
    }
  }

  /**
   * Every tag is non-empty, trimmed and free of commas, and the tags are
   * exactly the non-empty trimmed comma-separated pieces of the input.
   */
  lemma NormalizeTagsAreClean(tagString: string)
    ensures forall t :: t in NormalizeTags(tagString) ==> t != "" && IsTrimmed(t) && ',' !in t
    ensures forall t :: t in NormalizeTags(tagString) <==> t != "" && t in TrimAll(Split(tagString, ','))
  {
    TrimAllKeepsAbsence(Split(tagString, ','), ',');
  }

  /**
   * Tags that are already clean survive being joined with commas and
   * normalised again, in order.
   */
  lemma NormalizeTagsOfJoin(tags: seq<string>)
    requires forall t :: t in tags ==> t != "" && IsTrimmed(t) && ',' !in t
    ensures NormalizeTags(Join(tags, ",")) == tags
  {
    if tags == [] {
      assert Split(Join(tags, ","), ',') == [""];
      assert TrimAll([""]) == [""];
    } else {
      SplitJoin(tags, ',');
      forall i | 0 <= i < |tags|
        ensures Trim(tags[i]) == tags[i]
      {
        assert tags[i] in tags;
        TrimFixesTrimmed(tags[i]);
      }
      assert TrimAll(tags) == tags;
      NonEmptyKeepsNonEmpty(tags);
    }
  }

  /** Normalising the comma-joined result of a normalisation gives it back unchanged. */
  lemma NormalizeTagsIdempotent(tagString: string)
    ensures NormalizeTags(Join(NormalizeTags(tagString), ",")) == NormalizeTags(tagString)
  {
    NormalizeTagsAreClean(tagString);
    NormalizeTagsOfJoin(NormalizeTags(tagString));
  }
}
