/** The key prefixes of the current layout (constants/constants.ts:10-12). */
module Constants {
  const RoomPrefix: string := "room"
  const RoomClimatePrefix: string := "room_climate"
  const RoomByIdPrefix: string := "room_by_id"
}
