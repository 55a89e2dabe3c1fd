/** The stop records of the dataset (stops_fixed.json), as both pages read them. */
module Stops {

  /** Stop ids are the dataset's numeric ids, compared with strict equality. */
  type StopId = int

  /** One record of the dataset; coordinates are kept only for the distance functions
      that the locate handlers are given. */
  datatype Stop = Stop(id: StopId, name: string, lat: real, lon: real, url: string)
}
