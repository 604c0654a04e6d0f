/**
 * The vehicle-count table that `python_task_1.py` works on: one record per (id_1, id_2) pair with
 * its route and the count of each vehicle class, already parsed from the file.
 */
module Dataset {
  import opened Wrappers

  /** The categories `pd.cut` assigns from the car count. */
  datatype CarType = Low | Medium | High

  /**
   * One row of the table. `carType` is the column that the type count adds to the
   * caller's table; it is `None` until then.
   */
  datatype Record = Record(id1: int, id2: int, route: int,
                           moto: real, car: real, rv: real, bus: real, truck: real,
                           carType: Option<CarType>)
}
