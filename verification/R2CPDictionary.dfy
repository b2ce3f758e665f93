// R2CPCommandDictionary: which command and parameter codes exist.
module R2CPDictionary {
  import opened Bytes

  const MOTORPWMENABLE: uint32 := 1
  const MOTORPWMDISABLE: uint32 := 2
  const MOTORIDLE: uint32 := 3
  const MOTORDUTYCYCLE: uint32 := 4
  const IMAGESEND: uint32 := 5
  const IMAGERECEIVE: uint32 := 6
  const ROBOTSHUTDOWN: uint32 := 7
  const PRINTMESSAGE: uint32 := 8
  const INVALIDCOMMAND: uint32 := 9

  const NOPARAMETERS: uint32 := 0
  const MOTORRIGHT: uint32 := 1
  const MOTORLEFT: uint32 := 2
  const IMAGEWIDTH: uint32 := 3
  const IMAGEHEIGHT: uint32 := 4
  const IMAGECHANNELS: uint32 := 5
  const IMAGEDATA: uint32 := 6
  const IMAGEBMP: uint32 := 7
  const IMAGEPNG: uint32 := 8
  const IMAGEJPEG: uint32 := 9
  const IMAGEGIF: uint32 := 10
  const INVALIDPARAMETER: uint32 := 11

  datatype ContentType = NoContent | DirectContent | ParameterizedContent

  predicate InCommandsSet(code: uint32) { MOTORPWMENABLE <= code <= INVALIDCOMMAND }

  /** getcommandparameters. The constructor puts the image parameters into the set of
      the motor duty cycle, without IMAGEHEIGHT, and shares that set. */
  function GetCommandParameters(code: uint32): set<uint32> {
    if !InCommandsSet(code) then {INVALIDPARAMETER}
    else if code in {MOTORDUTYCYCLE, IMAGESEND, IMAGERECEIVE} then
      {MOTORRIGHT, MOTORLEFT, IMAGEWIDTH, IMAGECHANNELS, IMAGEDATA, IMAGEBMP, IMAGEPNG, IMAGEJPEG, IMAGEGIF}
    else if code == INVALIDCOMMAND then {INVALIDPARAMETER}
    else {NOPARAMETERS}
  }

  /** getcommandcontenttype */
  function GetContentType(code: uint32): ContentType {
    if code in {MOTORDUTYCYCLE, IMAGESEND, IMAGERECEIVE} then ParameterizedContent
    else if code == PRINTMESSAGE then DirectContent
    else NoContent
  }

  /** checkifvalidcommand */
  predicate IsValidCommand(code: uint32) { code != INVALIDCOMMAND && InCommandsSet(code) }
}
