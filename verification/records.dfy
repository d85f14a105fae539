/** The records that flow between the pipeline's stages. */
module Records {
  import opened Wrappers

  /** Placeholder image used when a row has no picture (wikipedia_pipeline.py, line 7). */
  const NO_IMAGE: string := HTTPS + "upload.wikimedia.org/wikipedia/commons/thumb/0/0a/No-image-available.png/480px-No-image-available.png"

  /** The scheme every picture URL is given. */
  const HTTPS: string := "https://"

  /** One row as the extract stage hands it on: every field is a cleaned string,
      capacity included; `rank` is the row's index in the selected table. */
  datatype RawRecord = RawRecord(
    rank: nat,
    stadium: string,
    capacity: string,
    region: string,
    country: string,
    city: string,
    images: string,
    homeTeam: string)

  /** A geocoder answer. Only equality of coordinates matters to the pipeline. */
  datatype Coord = Coord(latitude: real, longitude: real)

  /** A record after the transform stage: capacity is numeric and a location
      (possibly absent) has been attached. */
  datatype Stadium = Stadium(
    rank: nat,
    stadium: string,
    capacity: nat,
    region: string,
    country: string,
    city: string,
    images: string,
    homeTeam: string,
    location: Option<Coord>)
}
