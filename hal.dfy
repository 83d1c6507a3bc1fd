/** Types the firmware borrows from the STM32 HAL: bytes, the 16-bit length
    taken by the transmit call, the HAL status code and the identity of a UART
    peripheral instance. */
module Hal {

  /** An 8-bit unsigned byte (`uint8_t`). */
  newtype byte = x: int | 0 <= x < 0x100

  /** A 16-bit unsigned length (`uint16_t`). */
  newtype u16 = x: int | 0 <= x < 0x1_0000

  /** `HAL_StatusTypeDef`: HAL_OK, HAL_ERROR, HAL_BUSY, HAL_TIMEOUT. */
  datatype Status = Ok | Error | Busy | Timeout

  /** The register block a UART handle points at (`huart->Instance`).
      Only USART6 is owned by this firmware; every other instance is foreign. */
  datatype Instance = Usart6 | OtherInstance(address: nat)

  /** The C cast `(uint16_t)n`: keep the low 16 bits. */
  function ToU16(n: nat): (r: u16)
    ensures n < 0x1_0000 ==> r as int == n
    ensures r as int % 0x1_0000 == n % 0x1_0000
  {
    (n % 0x1_0000) as u16
  }

  datatype Option<T> = None | Some(value: T)
}
