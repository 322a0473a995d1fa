/** The three views of the list the filter bar offers. */
module TodoFilters {

  datatype FilterType = All | Active | Completed
}
