/** `process_song_data`: the songs and artists tables, projected from the catalog. */
module SongData {
  import opened Schema

  /** `select('song_id', 'title', 'artist_id', 'year', 'duration')` applied to one record. */
  function SongOf(r: CatalogRecord): SongRow
  {
    SongRow(r.song_id, r.title, r.artist_id, r.year, r.duration)
  }

  /** The `selectExpr` renaming artist_name, artist_location, artist_latitude, artist_longitude. */
  function ArtistOf(r: CatalogRecord): ArtistRow
  {
    ArtistRow(r.artist_id, r.artist_name, r.artist_location, r.artist_latitude, r.artist_longitude)
  }

  /** The songs table: one row per catalog record, same position, fields unchanged; no filter, no dedup. */
  function Songs(catalog: seq<CatalogRecord>): (songs: seq<SongRow>)
    ensures |songs| == |catalog|
    ensures forall i | 0 <= i < |catalog| ::
      && songs[i].song_id == catalog[i].song_id
      && songs[i].title == catalog[i].title
      && songs[i].artist_id == catalog[i].artist_id
      && songs[i].year == catalog[i].year
      && songs[i].duration == catalog[i].duration
  {
    seq(|catalog|, i requires 0 <= i < |catalog| => SongOf(catalog[i]))
  }

  /**
   * The artists table: one row per catalog record with the artist columns
   * renamed; an artist listed on several records is listed as many times.
   */
  function Artists(catalog: seq<CatalogRecord>): (artists: seq<ArtistRow>)
    ensures |artists| == |catalog|
    ensures forall i | 0 <= i < |catalog| ::
      && artists[i].artist_id == catalog[i].artist_id
      && artists[i].name == catalog[i].artist_name
      && artists[i].location == catalog[i].artist_location
      && artists[i].latitude == catalog[i].artist_latitude
      && artists[i].longitude == catalog[i].artist_longitude
  {
    seq(|catalog|, i requires 0 <= i < |catalog| => ArtistOf(catalog[i]))
  }

  /** Puts a catalog record back together from its song row and its artist row. */
  function Reassemble(s: SongRow, a: ArtistRow): CatalogRecord
  {
    CatalogRecord(s.song_id, s.title, a.artist_id, a.name, a.location, a.latitude, a.longitude, s.year, s.duration)
  }

  /**
   * The two projections lose nothing: at every position the song row and
   * the artist row agree on artist_id and together give back the record.
   */
  lemma ProjectionsLossless(catalog: seq<CatalogRecord>)
    ensures forall i | 0 <= i < |catalog| ::
      && Songs(catalog)[i].artist_id == Artists(catalog)[i].artist_id
      && Reassemble(Songs(catalog)[i], Artists(catalog)[i]) == catalog[i]
  {
  }

  /** Number of catalog records whose artist columns project to `a`. */
  function ArtistCount(catalog: seq<CatalogRecord>, a: ArtistRow): nat
  {
    if |catalog| == 0 then 0
    else ArtistCount(catalog[..|catalog| - 1], a) + (if ArtistOf(catalog[|catalog| - 1]) == a then 1 else 0)
  }

  /**
   * No dedup: an artist row occurs in the artists table exactly as often
   * as catalog records carry that artist.
   */
  lemma {:induction false} ArtistMultiplicity(catalog: seq<CatalogRecord>, a: ArtistRow)
    ensures multiset(Artists(catalog))[a] == ArtistCount(catalog, a)
  {
    if |catalog| > 0 {
      var init := catalog[..|catalog| - 1];
      assert Artists(catalog) == Artists(init) + [ArtistOf(catalog[|catalog| - 1])];
      ArtistMultiplicity(init, a);
    }
  }
}
