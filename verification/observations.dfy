/** One row of the weather table and the columns the analysis groups by.
    Dates are opaque day numbers: the analysis only compares them for equality
    (distinct-date counts) and order (the overall date range). */
module Observations {

  /** A station position, the (latitude, longitude) grouping key. */
  datatype Location = Location(latitude: real, longitude: real)

  datatype Observation = Observation(
    date: int,
    city: string,
    latitude: real,
    longitude: real,
    temp: real,
    tempMin: real,
    tempMax: real,
    pressure: real,
    humidity: real,
    windSpeed: real,
    description: string)

  function LocationOf(o: Observation): Location
  {
    Location(o.latitude, o.longitude)
  }

  function CityOf(o: Observation): string
  {
    o.city
  }

  function DateOf(o: Observation): int
  {
    o.date
  }

  function DescriptionOf(o: Observation): string
  {
    o.description
  }

  function TempOf(o: Observation): real
  {
    o.temp
  }
}
