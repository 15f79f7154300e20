/** The status values records carry: "ACTIVE" for an open record,
    "INACTIVE" for a closed or cancelled one. */
module Status {
  const ACTIVE_STATUS: string := "ACTIVE"
  const INACTIVE_STATUS: string := "INACTIVE"
}
