/**
 * The records of epic.go that the modelled core reads: a catalog date entry
 * and an image record, reduced to the fields the core uses.
 */
module Records {

  /** One `{ "date": ... }` entry of a date list (type Date in epic.go). */
  datatype Date = Date(date: string)

  /**
   * An image record of a per-date manifest (type Image in epic.go), with only
   * its base file name (`image`) and its capture timestamp (`date`).
   */
  datatype Image = Image(image: string, date: string)

  /** The catalog base URL, the constant nasaUrl of epic.go. */
  const NasaUrl: string := "https://api.nasa.gov/EPIC"

  /** The date strings of a date list, in list order. */
  function Dates(ds: seq<Date>): seq<string>
  {
    seq(|ds|, i requires 0 <= i < |ds| => ds[i].date)
  }
}
